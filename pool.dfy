/**
 * The worker pool (`GopherPool`): a job queue of twice the worker count, a
 * producer that sends every node in order and then closes the queue, and
 * workers that take the nodes off it. The model runs one schedule of this,
 * sequentially: when the queue is full, a worker takes its oldest node and
 * runs it; after the close, the workers drain what is left.
 */
module Pool {
  import opened Wrappers
  import opened Nodes
  import opened Channel
  import opened Executor

  /** How `begin` ends. */
  datatype Outcome =
    | Completed                 // every node was run and every worker has returned
    | Aborted(error: FatalError) // a worker called `log.Fatal`, ending the process
    | Deadlocked                // no worker can ever receive: the Go runtime stops the process

  class GopherPool {
    const workerCount: nat
    /** The channel of nodes shared by the producer and the workers. */
    const queue: JobQueue
    const worker: GenericGopher

    /** The pool invariant: a valid queue whose buffer is twice the worker count. */
    ghost predicate Valid()
      reads this, queue
    {
      queue.Valid() && queue.capacity == 2 * workerCount
    }

    /** `newGopherPool`: an open, empty queue of capacity `2 * workCount`. */
    constructor (workCount: nat, worker: GenericGopher)
      ensures Valid() && fresh(queue)
      ensures workerCount == workCount && this.worker == worker
      ensures queue.items == [] && !queue.closed && queue.sent == [] && queue.received == []
    {
      workerCount := workCount;
      this.worker := worker;
      queue := new JobQueue(2 * workCount);
    }

    /** One pass of a waiting worker's loop: it takes the oldest buffered node and runs it. */
    method TakeOldest(cmd: seq<string>, run: Invocation -> Child) returns (writes: seq<string>, failure: Option<FatalError>)
      requires Valid() && queue.items != []
      modifies queue
      ensures Valid() && queue.closed == old(queue.closed) && queue.sent == old(queue.sent)
      ensures queue.items == old(queue.items)[1..] && queue.received == old(queue.received) + [old(queue.items)[0]]
      ensures NodeResult(writes, failure) == worker.NodeRun(old(queue.items)[0], cmd, run)
    {
      var received := queue.Recv();
      writes, failure := worker.ExecNode(received.node, cmd, run);
    }

    /**
     * The producer half of `begin`: send every node in order. When the
     * queue is full, a waiting worker first takes the oldest node and runs it;
     * with no workers nobody ever takes one, and the send blocks for good.
     * Stops early at a fatal error; otherwise the queue is left open holding
     * the nodes not yet taken.
     */
    method Produce(nodes: seq<Node>, cmd: seq<string>, run: Invocation -> Child)
      returns (writes: seq<string>, failure: Option<FatalError>, deadlocked: bool, ghost taken: nat)
      requires Valid() && queue.items == [] && !queue.closed && queue.sent == [] && queue.received == []
      modifies queue
      ensures Valid() && !queue.closed
      ensures taken <= |queue.sent| <= |nodes| && queue.sent == nodes[..|queue.sent|] && queue.received == nodes[..taken]
      ensures deadlocked <==> workerCount == 0 && nodes != []
      ensures deadlocked ==> writes == [] && queue.sent == [] && failure.None?
      ensures !deadlocked && failure.Some? ==> worker.RunAll(nodes[..taken], cmd, run) == Run(writes, taken, failure)
      ensures !deadlocked && failure.None? ==>
                && queue.sent == nodes && queue.items == nodes[taken..]
                && worker.RunAll(nodes[..taken], cmd, run).failure.None?
                && writes == worker.RunAll(nodes[..taken], cmd, run).writes
    {
      writes, failure, deadlocked := [], None, false;
      var i := 0;
      taken := 0;
      while i < |nodes|
        invariant Valid() && !queue.closed
        invariant 0 <= taken <= i <= |nodes|
        invariant queue.sent == nodes[..i] && queue.received == nodes[..taken] && queue.items == nodes[taken..i]
        invariant worker.RunAll(nodes[..taken], cmd, run).failure.None? && writes == worker.RunAll(nodes[..taken], cmd, run).writes
        invariant workerCount == 0 ==> i == 0
      {
        if queue.IsFull() {
          if workerCount == 0 {
            deadlocked := true;
            return;
          }
          var w, f := TakeOldest(cmd, run);
          worker.RunAllStep(nodes, taken, cmd, run);
          writes := writes + w;
          taken := taken + 1;
          if f.Some? {
            failure := f;
            return;
          }
        }
        queue.Send(nodes[i]);
        assert nodes[..i + 1] == nodes[..i] + [nodes[i]];
        i := i + 1;
      }
      assert nodes[..i] == nodes;
    }

    /**
     * `begin`. Every node is sent in input order and the queue is closed
     * once, after the last send; the nodes the workers receive are exactly
     * the input nodes in order, each once, and what is printed is each node's
     * output in turn. A fatal error in a worker stops everything at that node.
     * With no workers, a non-empty input can never be sent: the run deadlocks.
     */
    method Begin(nodes: seq<Node>, cmd: seq<string>, run: Invocation -> Child) returns (writes: seq<string>, outcome: Outcome)
      requires Valid() && queue.items == [] && !queue.closed && queue.sent == [] && queue.received == []
      modifies queue
      ensures Valid()
      ensures |queue.sent| <= |nodes| && queue.sent == nodes[..|queue.sent|]
      ensures queue.closed ==> queue.sent == nodes
      ensures workerCount == 0 && nodes != [] ==>
                outcome == Deadlocked && writes == [] && queue.sent == [] && queue.received == [] && !queue.closed
      ensures workerCount > 0 || nodes == [] ==>
                var r := worker.RunAll(nodes, cmd, run);
                && writes == r.writes
                && queue.received == nodes[..r.delivered]
                && outcome == (if r.failure.None? then Completed else Aborted(r.failure.value))
      ensures outcome == Completed ==> queue.closed && queue.sent == nodes && queue.received == nodes && queue.items == []
    {
      var failure, deadlocked;
      ghost var taken;
      writes, failure, deadlocked, taken := Produce(nodes, cmd, run);
      if deadlocked {
        return writes, Deadlocked;
      }
      assert nodes == nodes[..taken] + nodes[taken..];
      worker.RunAllAppend(nodes[..taken], nodes[taken..], cmd, run);
      if failure.Some? {
        return writes, Aborted(failure.value);
      }
      queue.Close();
      if workerCount > 0 {
        // the workers drain the closed queue
        var w, f := worker.Exec(queue, cmd, run);
        writes := writes + w;
        if f.Some? {
          return writes, Aborted(f.value);
        }
      }
      // `wg.Wait()` returns: every worker has seen the closed, drained queue
      outcome := Completed;
    }
  }
}
