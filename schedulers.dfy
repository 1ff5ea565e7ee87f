/**
 * The FIFO scheduler: a ready queue of threads and a `size` counter that
 * the operations keep in step with it. `Thread::dispatch_to` is recorded
 * by appending the dispatched thread to `dispatched`; the context switch
 * itself is not modelled.
 */
module ReadySchedulers {
  import opened ThreadQueues
  import opened Termination

  class Scheduler {
    var size: int
    const ready: Queue
    /** The threads handed to `dispatch_to`, oldest first. */
    var dispatched: seq<Thread?>

    ghost predicate Valid()
      reads this, ready, ready.repr
    {
      ready.Valid() && this !in ready.repr
    }

    /** The counter matches the queue length. */
    ghost predicate Synced()
      reads this, ready
    {
      size == |ready.contents|
    }

    constructor ()
      ensures Valid() && Synced() && fresh(ready.repr)
      ensures size == 0 && ready.contents == [] && dispatched == []
    {
      size := 0;
      ready := new Queue();
      dispatched := [];
    }

    /**
     * `yield`: with size 0 nothing happens; otherwise size drops by one and
     * the head of the ready queue is dispatched (null if the counter ran
     * ahead of the queue).
     */
    method Yield()
      requires Valid()
      modifies this, ready
      ensures Valid() && ready.repr <= old(ready.repr)
      ensures old(size) == 0 ==> size == 0 && ready.contents == old(ready.contents) && dispatched == old(dispatched)
      ensures old(size) != 0 ==> size == old(size) - 1
      ensures old(size) != 0 && old(ready.contents) != [] ==>
        dispatched == old(dispatched) + [old(ready.contents[0])] && ready.contents == old(ready.contents[1..])
      ensures old(size) != 0 && old(ready.contents) == [] ==> dispatched == old(dispatched) + [null] && ready.contents == []
      ensures old(Synced()) ==> Synced()
    {
      if size != 0 {
        size := size - 1;
        var t := ready.Dequeue();
        dispatched := dispatched + [t];
      }
    }

    /** `resume` and `add`: enqueue at the tail and count one more. */
    method Add(t: Thread?)
      requires Valid()
      modifies this, ready.repr
      ensures Valid() && fresh(ready.repr - old(ready.repr))
      ensures ready.contents == old(ready.contents) + (if t == null then [] else [t])
      ensures size == old(size) + 1 && dispatched == old(dispatched)
      ensures old(Synced()) && t != null ==> Synced()
    {
      ready.Enqueue(t);
      size := size + 1;
    }

    /** `resume` has the same body as `add`. */
    method Resume(t: Thread?)
      requires Valid()
      modifies this, ready.repr
      ensures Valid() && fresh(ready.repr - old(ready.repr))
      ensures ready.contents == old(ready.contents) + (if t == null then [] else [t])
      ensures size == old(size) + 1 && dispatched == old(dispatched)
      ensures old(Synced()) && t != null ==> Synced()
    {
      Add(t);
    }

    /**
     * `terminate`: the rotation loop over the ready queue, which leaves it
     * as Terminated describes and the counter in step.
     */
    method Terminate(t: Thread)
      requires Valid() && Synced()
      modifies this, ready.repr
      ensures Valid() && Synced() && fresh(ready.repr - old(ready.repr))
      ensures ready.contents == Terminated(old(ready.contents), t.id)
      ensures dispatched == old(dispatched)
    {
      size := TerminateIn(ready, size, t.id);
    }
  }
}

/**
 * The scheduler that gives priority to a disk's wait queue: threads blocked
 * on the disk are queued on the disk with their own counter, and `yield`
 * dispatches from there first whenever the disk reports ready.
 */
module DiskSchedulers {
  import opened ThreadQueues
  import opened Termination

  /**
   * The wait-queue part of `BlockingDisk`. The device itself, and whether
   * it is ready, are outside the model: readiness is a parameter of
   * `Scheduler.Yield`.
   */
  class BlockingDisk {
    var queueSize: int
    const queueDisk: Queue

    ghost predicate Valid()
      reads this, queueDisk, queueDisk.repr
    {
      queueDisk.Valid() && this !in queueDisk.repr
    }

    constructor ()
      ensures Valid() && fresh(queueDisk.repr)
      ensures queueSize == 0 && queueDisk.contents == []
    {
      queueSize := 0;
      queueDisk := new Queue();
    }

    /** `enqueue_on_disk`: queue t on the disk and count one more. */
    method EnqueueOnDisk(t: Thread?)
      requires Valid()
      modifies this, queueDisk.repr
      ensures Valid() && fresh(queueDisk.repr - old(queueDisk.repr))
      ensures queueDisk.contents == old(queueDisk.contents) + (if t == null then [] else [t])
      ensures queueSize == old(queueSize) + 1
    {
      queueDisk.Enqueue(t);
      queueSize := queueSize + 1;
    }
  }

  class Scheduler {
    var size: int
    const ready: Queue
    var disk: BlockingDisk?
    /** The threads handed to `dispatch_to`, oldest first. */
    var dispatched: seq<Thread?>

    /** The disk's objects, when there is a disk. */
    ghost function DiskRepr(): set<object>
      reads this, if disk == null then {} else {disk, disk.queueDisk}
    {
      if disk == null then {} else {disk, disk.queueDisk} + disk.queueDisk.repr
    }

    /** The ready queue and the disk are well formed and share no object with each other or the scheduler. */
    ghost predicate Valid()
      reads this, ready, ready.repr, DiskRepr()
    {
      && ready.Valid() && this !in ready.repr
      && (disk != null ==>
            && disk.Valid()
            && this !in DiskRepr()
            && ready.repr !! DiskRepr())
    }

    ghost predicate Synced()
      reads this, ready
    {
      size == |ready.contents|
    }

    constructor ()
      ensures Valid() && Synced() && fresh(ready.repr)
      ensures size == 0 && ready.contents == [] && disk == null && dispatched == []
    {
      size := 0;
      ready := new Queue();
      disk := null;
      dispatched := [];
    }

    /** `addDisk`: only the disk reference changes. */
    method AddDisk(d: BlockingDisk?)
      requires Valid()
      requires d != null ==> d.Valid() && this !in d.queueDisk.repr && d !in ready.repr && ready.repr !! d.queueDisk.repr
      modifies this`disk
      ensures Valid() && disk == d
    {
      disk := d;
    }

    /**
     * `yield`: when there is a disk, it is ready and its counter is not 0,
     * the disk's head thread is dispatched and only the disk side changes;
     * otherwise as in the FIFO scheduler.
     */
    method Yield(diskReady: bool)
      requires Valid()
      modifies this, ready, if disk != null then {disk, disk.queueDisk} else {}
      ensures Valid() && disk == old(disk) && ready.repr <= old(ready.repr)
      ensures disk != null ==> disk.queueDisk.repr <= old(disk.queueDisk.repr)
      ensures old(Synced()) ==> Synced()
      ensures
        if old(disk) != null && diskReady && old(disk.queueSize) != 0 then
          && disk.queueSize == old(disk.queueSize) - 1
          && dispatched == old(dispatched) + [if old(disk.queueDisk.contents) == [] then null else old(disk.queueDisk.contents[0])]
          && disk.queueDisk.contents == (if old(disk.queueDisk.contents) == [] then [] else old(disk.queueDisk.contents[1..]))
          && size == old(size) && ready.contents == old(ready.contents)
        else
          && (disk != null ==> disk.queueSize == old(disk.queueSize) && disk.queueDisk.contents == old(disk.queueDisk.contents))
          && (old(size) == 0 ==> size == 0 && ready.contents == old(ready.contents) && dispatched == old(dispatched))
          && (old(size) != 0 ==>
                && size == old(size) - 1
                && dispatched == old(dispatched) + [if old(ready.contents) == [] then null else old(ready.contents[0])]
                && ready.contents == (if old(ready.contents) == [] then [] else old(ready.contents[1..])))
    {
      if disk != null && diskReady && disk.queueSize != 0 {
        var t := disk.queueDisk.Dequeue();
        disk.queueSize := disk.queueSize - 1;
        dispatched := dispatched + [t];
      } else if size != 0 {
        size := size - 1;
        var t := ready.Dequeue();
        dispatched := dispatched + [t];
      }
    }

    /** `resume` and `add`: enqueue on the ready queue and count one more. */
    method Add(t: Thread?)
      requires Valid()
      modifies this, ready.repr
      ensures Valid() && fresh(ready.repr - old(ready.repr))
      ensures ready.contents == old(ready.contents) + (if t == null then [] else [t])
      ensures size == old(size) + 1 && dispatched == old(dispatched) && disk == old(disk)
      ensures old(Synced()) && t != null ==> Synced()
    {
      ready.Enqueue(t);
      size := size + 1;
    }

    /** `resume` has the same body as `add`. */
    method Resume(t: Thread?)
      requires Valid()
      modifies this, ready.repr
      ensures Valid() && fresh(ready.repr - old(ready.repr))
      ensures ready.contents == old(ready.contents) + (if t == null then [] else [t])
      ensures size == old(size) + 1 && dispatched == old(dispatched) && disk == old(disk)
      ensures old(Synced()) && t != null ==> Synced()
    {
      Add(t);
    }

    /** `terminate`: the rotation over the ready queue; the disk queue is not touched. */
    method Terminate(t: Thread)
      requires Valid() && Synced()
      modifies this, ready.repr
      ensures Valid() && Synced() && fresh(ready.repr - old(ready.repr))
      ensures ready.contents == Terminated(old(ready.contents), t.id)
      ensures dispatched == old(dispatched) && disk == old(disk)
      ensures disk != null ==> disk.queueSize == old(disk.queueSize) && disk.queueDisk.contents == old(disk.queueDisk.contents)
    {
      size := TerminateIn(ready, size, t.id);
    }
  }
}
