/**
 * The job queue of the worker pool: a buffered Go channel of nodes, taken as
 * a sequential bounded FIFO with a `closed` flag. Sends on a closed channel and
 * a second close panic in Go, so those are preconditions here; a send on a full
 * channel and a receive on an open, empty channel would block, which the
 * single-threaded model reports instead of waiting.
 */
module Channel {
  import opened Nodes

  /** What a receive (`node, ok := <-ch`) observes. */
  datatype Receive =
    | Item(node: Node) // the oldest buffered node
    | Drained          // closed and empty: `range` over the channel ends
    | WouldBlock       // open and empty: a worker would wait here

  class JobQueue {
    /** The buffer size given to `make`. */
    const capacity: nat
    /** The buffered nodes, oldest first. */
    var items: seq<Node>
    var closed: bool
    /** Every node ever sent, and every node ever received, in order. */
    ghost var sent: seq<Node>
    ghost var received: seq<Node>

    /** The channel invariant: the buffer never exceeds its capacity and holds exactly the sent nodes not yet received. */
    ghost predicate Valid()
      reads this
    {
      |items| <= capacity && sent == received + items
    }

    /** `make(chan Node, capacity)`: open and empty. */
    constructor (capacity: nat)
      ensures Valid()
      ensures this.capacity == capacity && items == [] && !closed
      ensures sent == [] && received == []
    {
      this.capacity := capacity;
      items := [];
      closed := false;
      sent := [];
      received := [];
    }

    predicate IsFull()
      reads this
    {
      |items| >= capacity
    }

    /** `ch <- n` when there is room. */
    method Send(n: Node)
      requires Valid() && !closed && !IsFull()
      modifies this
      ensures Valid()
      ensures items == old(items) + [n] && !closed
      ensures sent == old(sent) + [n] && received == old(received)
    {
      items := items + [n];
      sent := sent + [n];
    }

    /** `n, ok := <-ch`: buffered nodes come out first, in order, even after the close. */
    method Recv() returns (r: Receive)
      requires Valid()
      modifies this
      ensures Valid()
      ensures closed == old(closed) && sent == old(sent)
      ensures old(items) != [] ==> r == Item(old(items)[0]) && items == old(items)[1..] && received == old(received) + [r.node]
      ensures old(items) == [] ==> items == [] && received == old(received) && r == (if closed then Drained else WouldBlock)
    {
      if items != [] {
        r := Item(items[0]);
        received := received + [items[0]];
        items := items[1..];
      } else if closed {
        r := Drained;
      } else {
        r := WouldBlock;
      }
    }

    /** `close(ch)`: no more sends; what is buffered stays receivable. */
    method Close()
      requires Valid() && !closed
      modifies this
      ensures Valid()
      ensures closed && items == old(items) && sent == old(sent) && received == old(received)
    {
      closed := true;
    }
  }
}
