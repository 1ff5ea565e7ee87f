/**
 * The ready-queue building blocks: threads, identified by their id, and the
 * singly linked FIFO `Queue` whose head node is embedded in its owner.
 * Each node holds one thread and a link to the rest; a lone node whose
 * thread is null is the empty queue.
 */
module ThreadQueues {

  /** A thread, as far as the schedulers see it: its id. */
  class Thread {
    const id: int

    constructor (threadId: int)
      ensures id == threadId
    {
      id := threadId;
    }
  }

  class Queue {
    var thread: Thread?
    var next: Queue?
    /** The threads held from this node on, head first. */
    ghost var contents: seq<Thread>
    ghost var repr: set<object>

    /**
     * The chain is well formed: an empty node ends the chain, and a full
     * node holds the head of its contents and links to the rest. An empty
     * node may trail a full one (left behind by a null enqueue); it stands
     * for nothing.
     */
    ghost predicate Valid()
      reads this, repr
      decreases repr
    {
      && this in repr
      && (thread == null ==> next == null && contents == [])
      && (thread != null && next == null ==> contents == [thread])
      && (thread != null && next != null ==>
            && next in repr && next.repr <= repr && this !in next.repr
            && next.Valid()
            && contents == [thread] + next.contents)
    }

    /** `Queue()`: the empty queue. */
    constructor ()
      ensures Valid() && fresh(repr)
      ensures contents == []
      ensures thread == null && next == null
    {
      thread := null;
      next := null;
      contents := [];
      repr := {this};
    }

    /** `Queue(new_thread)`: a one-node queue holding t, empty when t is null. */
    constructor Single(t: Thread?)
      ensures Valid() && fresh(repr)
      ensures contents == (if t == null then [] else [t])
      ensures thread == t && next == null
    {
      thread := t;
      next := null;
      contents := if t == null then [] else [t];
      repr := {this};
    }

    /**
     * `enqueue`: walk to the tail and append t there. A null thread changes
     * no contents: it drops into an empty node, or becomes a trailing empty
     * node.
     */
    method Enqueue(t: Thread?)
      requires Valid()
      modifies repr
      ensures Valid() && fresh(repr - old(repr))
      ensures contents == old(contents) + (if t == null then [] else [t])
      decreases repr
    {
      if thread == null {
        thread := t;
        contents := if t == null then [] else [t];
      } else if next == null {
        next := new Queue.Single(t);
        repr := repr + next.repr;
        contents := contents + next.contents;
      } else {
        next.Enqueue(t);
        repr := repr + next.repr;
        contents := [thread] + next.contents;
      }
    }

    /**
     * `dequeue`: null and no change on an empty queue; otherwise the head
     * thread, with the second node's thread and link pulled into this node
     * (the second node is deleted).
     */
    method Dequeue() returns (top: Thread?)
      requires Valid()
      modifies this
      ensures Valid() && repr <= old(repr)
      ensures old(contents) == [] ==> top == null && contents == [] && thread == old(thread) && next == old(next)
      ensures old(contents) != [] ==> top == old(contents[0]) && contents == old(contents[1..])
      ensures old(|contents|) == 1 ==> thread == null
    {
      if thread == null {
        return null;
      }
      top := thread;
      if next != null {
        thread := next.thread;
        contents := next.contents;
        repr := {this} + next.repr;
        next := next.next;
      } else {
        thread := null;
        contents := [];
        repr := {this};
      }
    }
  }

  /**
   * FIFO order: threads enqueued in order into a fresh queue come out of
   * it in the same order.
   */
  method FifoOrder(ts: seq<Thread>) returns (out: seq<Thread>)
    ensures out == ts
  {
    var q := new Queue();
    var i := 0;
    while i < |ts|
      invariant 0 <= i <= |ts|
      invariant q.Valid() && fresh(q.repr)
      invariant q.contents == ts[..i]
    {
      q.Enqueue(ts[i]);
      i := i + 1;
      assert ts[..i] == ts[..i - 1] + [ts[i - 1]];
    }
    out := [];
    while |out| < |ts|
      invariant q.Valid() && fresh(q.repr)
      invariant |out| <= |ts| && out + q.contents == ts
      decreases |ts| - |out|
    {
      var t := q.Dequeue();
      assert t != null;
      out := out + [t];
    }
    assert q.contents == [];
  }
}
