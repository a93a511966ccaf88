/**
 * `optimizeBlockRendering` of the editor script: a FIFO queue of
 * `{ block, resolve }` entries drained `batchSize` at a time by
 * `processQueue`, which `queueBlock` calls right after every push.
 * Promise resolution is recorded in a log (`resolved`), and the
 * `requestAnimationFrame(processQueue)` call is returned as a boolean.
 */
module RenderQueue {
  import opened Wrappers

  /** A queued `{ block, resolve }` entry; `ticket` identifies the promise `queueBlock` handed out. */
  datatype Request<Block> = Request(ticket: nat, block: Block)

  /** `gpoSettings.batchSize || 10`: an absent or zero setting falls back to 10, any other value is used as is. */
  function EffectiveBatchSize(setting: Option<int>): (n: int)
    ensures n != 0
    ensures setting.Some? && setting.value != 0 ==> n == setting.value
    ensures setting.None? || setting.value == 0 ==> n == 10
  {
    if setting.None? || setting.value == 0 then 10 else setting.value
  }

  /**
   * `q.splice(0, deleteCount)`: the removed head and what stays in the array.
   * A negative count removes nothing, a count past the end removes everything.
   */
  function Splice<T>(q: seq<T>, deleteCount: int): (r: (seq<T>, seq<T>))
    ensures r.0 + r.1 == q
    ensures deleteCount <= 0 ==> r.0 == []
    ensures 0 <= deleteCount <= |q| ==> |r.0| == deleteCount
    ensures deleteCount >= |q| ==> r.1 == []
  {
    var n := if deleteCount <= 0 then 0 else if deleteCount >= |q| then |q| else deleteCount;
    (q[..n], q[n..])
  }

  class Renderer<Block> {
    var renderQueue: seq<Request<Block>>
    var isProcessing: bool
    /** The `resolve(block)` calls made so far, in the order they were made. */
    var resolved: seq<Request<Block>>
    /** The ticket the next `queueBlock` call hands out. */
    var nextTicket: nat
    /** Every block passed to `queueBlock`, in call order. */
    ghost var requested: seq<Block>
    const batchSize: int

    /**
     * Outside `processQueue` the flag is down, and the resolved log followed
     * by the queue is exactly the requests in the order they were made: each
     * request is resolved at most once, with its own block, in FIFO order.
     */
    ghost predicate Consistent()
      reads this
    {
      && !isProcessing
      && nextTicket == |requested| == |resolved| + |renderQueue|
      && forall i :: 0 <= i < |requested| ==> (resolved + renderQueue)[i] == Request(i, requested[i])
    }

    /** Between calls, with a positive batch size, nothing is left waiting. */
    ghost predicate Valid()
      reads this
    {
      Consistent() && (batchSize >= 1 ==> renderQueue == [])
    }

    /** `optimizeBlockRendering()` with the `batchSize` setting it reads. */
    constructor (setting: Option<int>)
      ensures Valid()
      ensures batchSize == EffectiveBatchSize(setting)
      ensures renderQueue == [] && resolved == [] && requested == []
    {
      renderQueue := [];
      isProcessing := false;
      resolved := [];
      nextTicket := 0;
      requested := [];
      batchSize := EffectiveBatchSize(setting);
    }

    /**
     * `processQueue`: on an empty queue nothing happens; otherwise the first
     * `batchSize` entries are spliced off and resolved in order, and another
     * run is scheduled exactly when entries remain.
     */
    method ProcessQueue() returns (rescheduled: bool)
      requires Consistent()
      modifies this
      ensures Consistent()
      ensures requested == old(requested) && nextTicket == old(nextTicket)
      ensures var (batch, rest) := Splice(old(renderQueue), batchSize);
        resolved == old(resolved) + batch && renderQueue == rest
      ensures rescheduled <==> renderQueue != []
      ensures old(renderQueue) == [] ==> resolved == old(resolved) && renderQueue == [] && !rescheduled
    {
      if isProcessing || |renderQueue| == 0 {
        return false;
      }
      isProcessing := true;
      var (batch, rest) := Splice(renderQueue, batchSize);
      renderQueue := rest;
      var i := 0;
      while i < |batch|
        invariant 0 <= i <= |batch|
        invariant resolved == old(resolved) + batch[..i]
        invariant renderQueue == rest && isProcessing
        invariant requested == old(requested) && nextTicket == old(nextTicket)
      {
        resolved := resolved + [batch[i]];
        i := i + 1;
      }
      isProcessing := false;
      assert batch[..i] == batch;
      assert resolved + renderQueue == old(resolved) + old(renderQueue);
      rescheduled := |renderQueue| > 0;
    }

    /**
     * `queueBlock(block)`: push at the tail, then drain at once. With a
     * positive batch size the new request is resolved before the call
     * returns; with a negative one nothing is ever resolved and a further
     * drain is scheduled every time.
     */
    method QueueBlock(block: Block) returns (ticket: nat, rescheduled: bool)
      requires Valid()
      modifies this
      ensures Valid()
      ensures ticket == old(nextTicket) && requested == old(requested) + [block]
      ensures batchSize >= 1 ==> resolved == old(resolved) + [Request(ticket, block)] && !rescheduled
      ensures batchSize < 1 ==> resolved == old(resolved) && rescheduled
      ensures batchSize < 1 ==> renderQueue == old(renderQueue) + [Request(ticket, block)]
    {
      ticket := nextTicket;
      renderQueue := renderQueue + [Request(ticket, block)];
      nextTicket := nextTicket + 1;
      requested := requested + [block];
      assert resolved + renderQueue == old(resolved + renderQueue) + [Request(ticket, block)];
      rescheduled := ProcessQueue();
    }
  }
}
