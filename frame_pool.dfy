/**
 * The physical frame allocator, seen only through the interface that the
 * paging code uses: `get_frames(1)` hands out one free frame, and
 * `release_frames(f)` gives a frame back. The contiguous, bitmap-based
 * implementation is not part of this model; a pool is a set of free frames
 * and a set of frames it has handed out.
 */
module FramePools {

  /** Frame numbers fit the 20 high bits of a 32-bit physical address. */
  const FRAME_LIMIT: nat := 0x10_0000

  class FramePool {
    var free: set<nat>
    var used: set<nat>

    /** Frame 0 is the failure value of `get_frames`, so no pool owns it. */
    ghost predicate Valid()
      reads this
    {
      && free !! used
      && 0 !in free && 0 !in used
      && (forall f :: f in free ==> f < FRAME_LIMIT)
      && (forall f :: f in used ==> f < FRAME_LIMIT)
    }

    /** All frames this pool owns, free or handed out. */
    ghost function Owned(): set<nat>
      reads this
    {
      free + used
    }

    constructor (frames: set<nat>)
      requires 0 !in frames
      requires forall f :: f in frames ==> f < FRAME_LIMIT
      ensures Valid()
      ensures free == frames && used == {}
    {
      free := frames;
      used := {};
    }

    /**
     * `get_frames(1)`: some free frame becomes used; with no free frame
     * the result is 0 and nothing changes.
     */
    method GetFrame() returns (f: nat)
      requires Valid()
      modifies this
      ensures Valid()
      ensures old(free) == {} ==> f == 0 && free == old(free) && used == old(used)
      ensures old(free) != {} ==> 0 < f < FRAME_LIMIT && f in old(free)
      ensures old(free) != {} ==> free == old(free) - {f} && used == old(used) + {f}
      ensures Owned() == old(Owned())
    {
      if free == {} {
        f := 0;
      } else {
        f :| f in free;
        free := free - {f};
        used := used + {f};
      }
    }

    /**
     * `release_frames(f)`: a frame this pool handed out becomes free again;
     * any other frame number is reported and ignored.
     */
    method ReleaseFrame(f: nat)
      requires Valid()
      modifies this
      ensures Valid()
      ensures f in old(used) ==> free == old(free) + {f} && used == old(used) - {f}
      ensures f !in old(used) ==> free == old(free) && used == old(used)
      ensures Owned() == old(Owned())
    {
      if f in used {
        used := used - {f};
        free := free + {f};
      }
    }
  }
}
