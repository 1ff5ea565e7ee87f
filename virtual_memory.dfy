/**
 * The paged virtual-memory manager and the per-region allocator that plugs
 * into its fault handler.
 *
 * PagingState holds what the source keeps in PageTable's static members
 * (the two frame pools, the shared-region size, the current table and the
 * paging-enabled flag) together with the physical frames that hold
 * translation structures: `memory` maps a frame number to the 1024-entry
 * array stored in that frame. A directory, the identity-mapped low table
 * and every table the fault handler creates live there, so a lookup
 * through the self-map slot lands on the directory's own array.
 */
module VirtualMemory {
  import opened Common
  import opened PagingEntries
  import opened VmRegions
  import opened FramePools

  /** `PAGE_WRITE | PAGE_PRESENT`. */
  const WRITE_PRESENT: nat := 3

  /**
   * No two present slots of directory d lead to the same resident table:
   * the tables of an address space are not aliased.
   */
  ghost predicate DistinctTables(d: seq<nat>, m: map<nat, array<nat>>)
  {
    forall p, q :: 0 <= p < q < |d| && Present(d[p]) && Present(d[q]) && FrameOf(d[p]) in m && FrameOf(d[q]) in m ==>
      m[FrameOf(d[p])] != m[FrameOf(d[q])]
  }

  /**
   * Linking a new table frame tf, whose array is none of the resident ones,
   * into an absent slot pd keeps the tables unaliased.
   */
  lemma LinkKeepsTablesDistinct(d0: seq<nat>, m0: map<nat, array<nat>>, m: map<nat, array<nat>>, pd: nat, tf: nat)
    requires DistinctTables(d0, m0) && pd < |d0|
    requires forall o :: 0 <= o < |d0| && Present(d0[o]) ==> FrameOf(d0[o]) in m0
    requires tf !in m0 && m.Keys == m0.Keys + {tf}
    requires forall f :: f in m0 ==> m[f] == m0[f] && m0[f] != m[tf]
    ensures DistinctTables(d0[pd := Entry(tf, WRITE_PRESENT)], m)
  {
    var d := d0[pd := Entry(tf, WRITE_PRESENT)];
    EntryFields(tf, WRITE_PRESENT);
    forall p, q | 0 <= p < q < |d| && Present(d[p]) && Present(d[q]) && FrameOf(d[p]) in m && FrameOf(d[q]) in m
      ensures m[FrameOf(d[p])] != m[FrameOf(d[q])]
    {
      if p == pd || q == pd {
        var o := if p == pd then q else p;
        assert d[o] == d0[o] && FrameOf(d[o]) in m0;
      } else {
        assert d[p] == d0[p] && d[q] == d0[q];
      }
    }
  }

  /** A frame w bound a page to, if it was one of the pool's used frames, is free now. */
  ghost predicate Returned(w: Option<nat>, used: set<nat>, free: set<nat>)
  {
    w.Some? && w.value in used ==> w.value in free
  }

  class PagingState {
    var kernelPool: FramePool?
    var processPool: FramePool?
    var sharedSize: nat
    var current: PageTable?
    var pagingEnabled: bool
    var memory: map<nat, array<nat>>

    /** Every translation structure has one entry per slot. */
    ghost predicate Shaped()
      reads this`memory
    {
      forall f :: f in memory ==> memory[f].Length == ENTRIES
    }

    /** `init_paging` has run. */
    ghost predicate Initialized()
      reads this
    {
      kernelPool != null && processPool != null
    }

    ghost predicate Valid()
      reads this, kernelPool, processPool
    {
      && Shaped()
      && (!Initialized() ==> memory == map[] && current == null)
      && (Initialized() ==>
            && kernelPool != processPool
            && kernelPool.Valid() && processPool.Valid()
            && kernelPool.Owned() !! processPool.Owned()
            && memory.Keys <= kernelPool.used)
      && (current != null ==>
            current.state == this && current.dirFrame in memory && memory[current.dirFrame] == current.directory)
    }

    /**
     * The self-map convention holds for pt: its slot 1023 points at its own
     * frame, present and writable, and every present slot points at a
     * frame holding a translation structure.
     */
    ghost predicate WindowReady(pt: PageTable)
      reads this`memory, pt.directory
    {
      && pt.dirFrame in memory && memory[pt.dirFrame] == pt.directory
      && pt.directory.Length == ENTRIES
      && pt.directory[SELF_SLOT] == Entry(pt.dirFrame, WRITE_PRESENT)
      && (forall pd :: 0 <= pd < ENTRIES && Present(pt.directory[pd]) ==> FrameOf(pt.directory[pd]) in memory)
      && (forall pd :: 0 <= pd < SELF_SLOT && Present(pt.directory[pd]) ==> memory[FrameOf(pt.directory[pd])] != pt.directory)
    }

    /**
     * The two-level walk the hardware performs through directory dir: the
     * frame virtual address a is bound to, if both entries are present.
     */
    ghost function Walk(dir: array<nat>, a: u32): Option<nat>
      reads this`memory, dir, memory.Values
      requires Shaped() && dir.Length == ENTRIES
    {
      var de := dir[DirIndex(a)];
      if !Present(de) || FrameOf(de) !in memory then None
      else
        var te := memory[FrameOf(de)][TableIndex(a)];
        if Present(te) then Some(FrameOf(te)) else None
    }

    /** The table-entry word that translates a through dir, when its table is resident. */
    ghost function TableEntry(dir: array<nat>, a: u32): Option<nat>
      reads this`memory, dir, memory.Values
      requires Shaped() && dir.Length == ENTRIES
    {
      var de := dir[DirIndex(a)];
      if !Present(de) || FrameOf(de) !in memory then None
      else Some(memory[FrameOf(de)][TableIndex(a)])
    }

    /**
     * The self-map as a lookup contract: through a ready directory, the
     * directory window translates to the directory's own frame, and table
     * window pd translates to the frame slot pd points at, or to nothing
     * when that slot is absent.
     */
    lemma SelfMapWindow(pt: PageTable, pd: nat)
      requires Shaped() && WindowReady(pt)
      requires pd < ENTRIES
      ensures Walk(pt.directory, DIRECTORY_WINDOW) == Some(pt.dirFrame)
      ensures Present(pt.directory[pd]) ==> Walk(pt.directory, WindowAddress(pd)) == Some(FrameOf(pt.directory[pd]))
      ensures !Present(pt.directory[pd]) ==> Walk(pt.directory, WindowAddress(pd)) == None
    {
      WindowIndices(pd);
      EntryFields(pt.dirFrame, WRITE_PRESENT);
    }

    /**
     * The paging structure that the active translation maps the window
     * page a onto: the directory itself for `0xFFFFF000`, the table behind
     * slot pd for `0xFFC00000 | (pd << 12)`.
     */
    function WindowFrame(a: u32): (t: array<nat>)
      reads this, current, current.directory, memory.Values
      requires Shaped() && current != null && WindowReady(current)
      requires DirIndex(a) == SELF_SLOT
      requires TableIndex(a) == SELF_SLOT || Present(current.directory[TableIndex(a)])
      ensures TableIndex(a) == SELF_SLOT ==> t == current.directory
      ensures TableIndex(a) != SELF_SLOT ==> t == memory[FrameOf(current.directory[TableIndex(a)])]
      ensures Walk(current.directory, a) == Some(FrameOf(current.directory[TableIndex(a)]))
    {
      EntryFields(current.dirFrame, WRITE_PRESENT);
      var self := memory[FrameOf(current.directory[SELF_SLOT])];
      memory[FrameOf(self[TableIndex(a)])]
    }

    /** True when some registered pool of pt claims address a. */
    ghost predicate Claimed(pt: PageTable, a: u32)
      reads pt, pt.pools
    {
      exists i :: 0 <= i < pt.poolCount && i < pt.pools.Length && pt.pools[i] != null && pt.pools[i].IsLegitimate(a)
    }

    /** The static initialisers: no pools, no shared region, no current table, paging off. */
    constructor ()
      ensures Valid() && !Initialized()
      ensures sharedSize == 0 && !pagingEnabled && memory == map[]
    {
      kernelPool := null;
      processPool := null;
      sharedSize := 0;
      current := null;
      pagingEnabled := false;
      memory := map[];
    }

    /** `init_paging`: record the kernel pool, the process pool and the shared-region size. */
    method InitPaging(kernel: FramePool, process: FramePool, shared: nat)
      requires Valid() && current == null && memory == map[]
      requires kernel != process && kernel.Valid() && process.Valid()
      requires kernel.Owned() !! process.Owned()
      modifies this
      ensures Valid() && Initialized()
      ensures kernelPool == kernel && processPool == process && sharedSize == shared
      ensures current == null && pagingEnabled == old(pagingEnabled) && memory == old(memory)
    {
      kernelPool := kernel;
      processPool := process;
      sharedSize := shared;
    }

    /** `enable_paging`: set the process-wide flag (the CR0 write is hardware). */
    method EnablePaging()
      modifies this`pagingEnabled
      ensures pagingEnabled
    {
      pagingEnabled := true;
    }

    /**
     * No two present slots of directory d point at the same table, so
     * distinct virtual pages are translated by distinct table entries.
     */
    ghost predicate TablesUnshared(d: seq<nat>)
      reads this`memory
    {
      DistinctTables(d, memory)
    }

    /**
     * `handle_fault`: demand paging for the active address space. A fault
     * whose error code has the present bit set is ignored. Otherwise the
     * address must be claimed by a pool registered with the current table
     * (`ok` is false when the source's assert halts the kernel); a missing
     * second-level table is taken from the kernel pool, linked in present
     * and writable, and filled with not-present entries; finally a fresh
     * process-pool frame is bound at the address's table entry. In the top
     * 4 MiB the table window of slot 1023 is the directory itself, so the
     * fresh frame is written into the directory and the self-map breaks.
     */
    method HandleFault(addr: u32, errCode: nat) returns (ok: bool, frame: nat, tableFrame: nat)
      requires Valid() && Initialized() && current != null && WindowReady(current)
      requires current.poolCount <= current.pools.Length
      requires errCode % 2 == 0 && Claimed(current, addr) ==> processPool.free != {}
      requires errCode % 2 == 0 && Claimed(current, addr) && !Present(current.directory[DirIndex(addr)]) ==> kernelPool.free != {}
      modifies this`memory, kernelPool, processPool, memory.Values
      ensures current == old(current) && Valid()
      ensures forall f :: f in old(memory) ==> f in memory && memory[f] == old(memory[f])
      ensures ok <==> errCode % 2 == 1 || old(Claimed(current, addr))
      ensures !ok || errCode % 2 == 1 ==>
        && WindowReady(current) && memory == old(memory)
        && (forall f :: f in memory ==> memory[f][..] == old(memory[f][..]))
        && kernelPool.free == old(kernelPool.free) && processPool.free == old(processPool.free)
      ensures ok && errCode % 2 == 0 ==>
        && frame in old(processPool.free) && processPool.free == old(processPool.free) - {frame}
      ensures ok && errCode % 2 == 0 && DirIndex(addr) != SELF_SLOT ==>
        && WindowReady(current) && tableFrame == FrameOf(current.directory[DirIndex(addr)])
        && Walk(current.directory, addr) == Some(frame)
        && TableEntry(current.directory, addr) == Some(Entry(frame, WRITE_PRESENT))
        && (old(TablesUnshared(current.directory[..])) ==> TablesUnshared(current.directory[..]))
      ensures ok && errCode % 2 == 0 && DirIndex(addr) != SELF_SLOT && old(Present(current.directory[DirIndex(addr)])) ==>
        && memory == old(memory) && kernelPool.free == old(kernelPool.free)
        && current.directory[..] == old(current.directory[..])
        && memory[tableFrame][..] == old(memory[tableFrame][..])[TableIndex(addr) := Entry(frame, WRITE_PRESENT)]
        && (forall f :: f in memory && memory[f] != memory[tableFrame] ==> memory[f][..] == old(memory[f][..]))
      ensures ok && errCode % 2 == 0 && DirIndex(addr) != SELF_SLOT && !old(Present(current.directory[DirIndex(addr)])) ==>
        && tableFrame in old(kernelPool.free) && kernelPool.free == old(kernelPool.free) - {tableFrame}
        && tableFrame !in old(memory) && memory.Keys == old(memory.Keys) + {tableFrame} && fresh(memory[tableFrame])
        && current.directory[..] == old(current.directory[..])[DirIndex(addr) := Entry(tableFrame, WRITE_PRESENT)]
        && (forall i :: 0 <= i < ENTRIES && i != TableIndex(addr) ==> memory[tableFrame][i] == PAGE_LEVEL)
        && (forall f :: f in old(memory) && old(memory[f]) != current.directory ==> memory[f][..] == old(memory[f][..]))
      ensures ok && errCode % 2 == 0 && DirIndex(addr) == SELF_SLOT ==>
        && memory == old(memory) && kernelPool.free == old(kernelPool.free) && tableFrame == current.dirFrame
        && current.directory[..] == old(current.directory[..])[TableIndex(addr) := Entry(frame, WRITE_PRESENT)]
        && (forall f :: f in memory && memory[f] != current.directory ==> memory[f][..] == old(memory[f][..]))
        && !WindowReady(current)
    {
      frame, tableFrame := 0, 0;
      if errCode % 2 == 1 {
        return true, frame, tableFrame;
      }
      var j := current.FindPool(addr);
      if j < 0 {
        return false, frame, tableFrame;
      }
      ok := true;
      frame, tableFrame := MapPage(addr);
    }

    /**
     * The demand-paging part of `handle_fault`, for a claimed address:
     * read the directory entry through the directory window and bind a
     * fresh frame, through the table that is resident, a new table, or,
     * in the top 4 MiB, the directory itself.
     */
    method MapPage(addr: u32) returns (frame: nat, tableFrame: nat)
      requires Valid() && Initialized() && current != null && WindowReady(current)
      requires processPool.free != {}
      requires !Present(current.directory[DirIndex(addr)]) ==> kernelPool.free != {}
      modifies this`memory, kernelPool, processPool, memory.Values
      ensures current == old(current) && Valid()
      ensures forall f :: f in old(memory) ==> f in memory && memory[f] == old(memory[f])
      ensures frame in old(processPool.free) && processPool.free == old(processPool.free) - {frame}
      ensures DirIndex(addr) != SELF_SLOT ==>
        && WindowReady(current) && tableFrame == FrameOf(current.directory[DirIndex(addr)])
        && Walk(current.directory, addr) == Some(frame)
        && TableEntry(current.directory, addr) == Some(Entry(frame, WRITE_PRESENT))
        && (old(TablesUnshared(current.directory[..])) ==> TablesUnshared(current.directory[..]))
      ensures DirIndex(addr) != SELF_SLOT && old(Present(current.directory[DirIndex(addr)])) ==>
        && memory == old(memory) && kernelPool.free == old(kernelPool.free)
        && current.directory[..] == old(current.directory[..])
        && memory[tableFrame][..] == old(memory[tableFrame][..])[TableIndex(addr) := Entry(frame, WRITE_PRESENT)]
        && (forall f :: f in memory && memory[f] != memory[tableFrame] ==> memory[f][..] == old(memory[f][..]))
      ensures DirIndex(addr) != SELF_SLOT && !old(Present(current.directory[DirIndex(addr)])) ==>
        && tableFrame in old(kernelPool.free) && kernelPool.free == old(kernelPool.free) - {tableFrame}
        && tableFrame !in old(memory) && memory.Keys == old(memory.Keys) + {tableFrame} && fresh(memory[tableFrame])
        && current.directory[..] == old(current.directory[..])[DirIndex(addr) := Entry(tableFrame, WRITE_PRESENT)]
        && (forall i :: 0 <= i < ENTRIES && i != TableIndex(addr) ==> memory[tableFrame][i] == PAGE_LEVEL)
        && (forall f :: f in old(memory) && old(memory[f]) != current.directory ==> memory[f][..] == old(memory[f][..]))
      ensures DirIndex(addr) == SELF_SLOT ==>
        && memory == old(memory) && kernelPool.free == old(kernelPool.free) && tableFrame == current.dirFrame
        && current.directory[..] == old(current.directory[..])[TableIndex(addr) := Entry(frame, WRITE_PRESENT)]
        && (forall f :: f in memory && memory[f] != current.directory ==> memory[f][..] == old(memory[f][..]))
        && !WindowReady(current)
    {
      WindowIndices(0);
      var currPd := WindowFrame(DIRECTORY_WINDOW);
      if Present(currPd[DirIndex(addr)]) {
        if DirIndex(addr) == SELF_SLOT {
          frame := MapInDirectory(addr);
          tableFrame := current.dirFrame;
          EntryFields(current.dirFrame, WRITE_PRESENT);
        } else {
          frame, tableFrame := MapInTable(addr);
        }
      } else {
        frame, tableFrame := MapWithNewTable(addr);
      }
    }

    /**
     * The `handle_fault` branch for a resident table when the address lies
     * in the top 4 MiB: table window 1023 is the directory, so the fresh
     * process-pool frame is bound in directory slot `(addr >> 12) & 0x3FF`.
     * A process frame holds no table, so the self-map no longer holds.
     */
    method MapInDirectory(addr: u32) returns (frame: nat)
      requires Valid() && Initialized() && current != null && WindowReady(current)
      requires DirIndex(addr) == SELF_SLOT && processPool.free != {}
      modifies processPool, current.directory
      ensures Valid()
      ensures frame in old(processPool.free) && processPool.free == old(processPool.free) - {frame}
      ensures kernelPool.free == old(kernelPool.free)
      ensures current.directory[..] == old(current.directory[..])[TableIndex(addr) := Entry(frame, WRITE_PRESENT)]
      ensures forall f :: f in memory && memory[f] != current.directory ==> memory[f][..] == old(memory[f][..])
      ensures !WindowReady(current)
    {
      WindowIndices(SELF_SLOT);
      var table := WindowFrame(WindowAddress(SELF_SLOT));
      frame := processPool.GetFrame();
      table[TableIndex(addr)] := Entry(frame, WRITE_PRESENT);
      EntryFields(frame, WRITE_PRESENT);
      assert frame in processPool.used && frame !in memory;
    }

    /**
     * The `handle_fault` branch for a resident table: through the table
     * window, bind a fresh process-pool frame at the address's slot,
     * present and writable.
     */
    method MapInTable(addr: u32) returns (frame: nat, tableFrame: nat)
      requires Valid() && Initialized() && current != null && WindowReady(current)
      requires DirIndex(addr) != SELF_SLOT && Present(current.directory[DirIndex(addr)])
      requires processPool.free != {}
      modifies processPool, memory[FrameOf(current.directory[DirIndex(addr)])]
      ensures Valid() && WindowReady(current)
      ensures frame in old(processPool.free) && processPool.free == old(processPool.free) - {frame}
      ensures kernelPool.free == old(kernelPool.free)
      ensures tableFrame == FrameOf(current.directory[DirIndex(addr)])
      ensures current.directory[..] == old(current.directory[..])
      ensures memory[tableFrame][..] == old(memory[tableFrame][..])[TableIndex(addr) := Entry(frame, WRITE_PRESENT)]
      ensures forall f :: f in memory && memory[f] != memory[tableFrame] ==> memory[f][..] == old(memory[f][..])
      ensures Walk(current.directory, addr) == Some(frame)
      ensures TableEntry(current.directory, addr) == Some(Entry(frame, WRITE_PRESENT))
    {
      var pd := DirIndex(addr);
      WindowIndices(pd);
      var table := WindowFrame(WindowAddress(pd));
      tableFrame := FrameOf(current.directory[pd]);
      frame := processPool.GetFrame();
      table[TableIndex(addr)] := Entry(frame, WRITE_PRESENT);
      EntryFields(frame, WRITE_PRESENT);
    }

    /**
     * The `handle_fault` branch for an absent table: a kernel-pool frame
     * becomes the table, linked into the directory present and writable
     * and filled through the window with not-present `PAGE_LEVEL` entries;
     * then a fresh process-pool frame is bound at the address's slot.
     */
    method MapWithNewTable(addr: u32) returns (frame: nat, tableFrame: nat)
      requires Valid() && Initialized() && current != null && WindowReady(current)
      requires DirIndex(addr) != SELF_SLOT && !Present(current.directory[DirIndex(addr)])
      requires processPool.free != {} && kernelPool.free != {}
      modifies this`memory, kernelPool, processPool, current.directory
      ensures Valid() && WindowReady(current)
      ensures frame in old(processPool.free) && processPool.free == old(processPool.free) - {frame}
      ensures tableFrame in old(kernelPool.free) && kernelPool.free == old(kernelPool.free) - {tableFrame}
      ensures tableFrame !in old(memory) && memory.Keys == old(memory.Keys) + {tableFrame}
      ensures forall f :: f in old(memory) ==> memory[f] == old(memory[f])
      ensures fresh(memory[tableFrame])
      ensures current.directory[..] == old(current.directory[..])[DirIndex(addr) := Entry(tableFrame, WRITE_PRESENT)]
      ensures forall i :: 0 <= i < ENTRIES && i != TableIndex(addr) ==> memory[tableFrame][i] == PAGE_LEVEL
      ensures forall f :: f in old(memory) && old(memory[f]) != current.directory ==> memory[f][..] == old(memory[f][..])
      ensures Walk(current.directory, addr) == Some(frame)
      ensures TableEntry(current.directory, addr) == Some(Entry(frame, WRITE_PRESENT))
      ensures old(TablesUnshared(current.directory[..])) ==> TablesUnshared(current.directory[..])
    {
      ghost var d0, m0 := current.directory[..], memory;
      var table;
      tableFrame, table := LinkTable(addr);
      var pd := DirIndex(addr);
      WindowIndices(pd);
      EntryFields(tableFrame, WRITE_PRESENT);
      var window := WindowFrame(WindowAddress(pd));
      assert window == table;
      FillNotPresent(window);
      var tf;
      frame, tf := MapInTable(addr);
      if TablesUnshared(d0) {
        LinkKeepsTablesDistinct(d0, m0, memory, pd, tableFrame);
      }
    }

    /**
     * `kernel_mem_pool->get_frames(1)` for a paging structure: a frame
     * leaves the kernel pool, and its contents, whatever the frame held
     * (`get_frames` does not clear it), become addressable as a 1024-entry
     * array.
     */
    method AllocateKernelFrame() returns (f: nat, page: array<nat>)
      requires Valid() && Initialized() && kernelPool.free != {}
      modifies this`memory, kernelPool
      ensures Valid()
      ensures f in old(kernelPool.free) && kernelPool.free == old(kernelPool.free) - {f}
      ensures processPool.free == old(processPool.free)
      ensures f !in old(memory) && memory == old(memory)[f := page]
      ensures fresh(page) && page.Length == ENTRIES
    {
      f := kernelPool.GetFrame();
      page := new nat[ENTRIES];
      memory := memory[f := page];
    }

    /** The two `get_frames(1)` calls of the PageTable constructor. */
    method AllocateKernelFramePair() returns (d: nat, dir: array<nat>, l: nat, low: array<nat>)
      requires Valid() && Initialized() && |kernelPool.free| >= 2
      modifies this`memory, kernelPool
      ensures Valid()
      ensures d in old(kernelPool.free) && l in old(kernelPool.free) && d != l
      ensures kernelPool.free == old(kernelPool.free) - {d, l}
      ensures d !in old(memory) && l !in old(memory) && memory == old(memory)[d := dir][l := low]
      ensures fresh(dir) && fresh(low) && dir != low && dir.Length == ENTRIES && low.Length == ENTRIES
    {
      d, dir := AllocateKernelFrame();
      l, low := AllocateKernelFrame();
    }

    /**
     * The first step of the absent-table branch of `handle_fault`: a
     * kernel-pool frame becomes a new table and is linked into the
     * directory slot of addr, present and writable.
     */
    method LinkTable(addr: u32) returns (tableFrame: nat, table: array<nat>)
      requires Valid() && Initialized() && current != null && WindowReady(current)
      requires DirIndex(addr) != SELF_SLOT && !Present(current.directory[DirIndex(addr)])
      requires kernelPool.free != {}
      modifies this`memory, kernelPool, current.directory
      ensures Valid() && WindowReady(current)
      ensures tableFrame in old(kernelPool.free) && kernelPool.free == old(kernelPool.free) - {tableFrame}
      ensures processPool.free == old(processPool.free)
      ensures tableFrame !in old(memory) && memory == old(memory)[tableFrame := table]
      ensures fresh(table) && table.Length == ENTRIES
      ensures current.directory[..] == old(current.directory[..])[DirIndex(addr) := Entry(tableFrame, WRITE_PRESENT)]
    {
      var pd := DirIndex(addr);
      var currPd := current.directory;
      tableFrame, table := AllocateKernelFrame();
      currPd[pd] := Entry(tableFrame, WRITE_PRESENT);
    }
  }

  /**
   * The low table after construction: its first sh entries map page i onto
   * frame i, present and writable. The entries after them are never
   * written and keep what the frame held.
   */
  ghost predicate IdentityLayout(low: array<nat>, sh: nat)
    reads low
  {
    && low.Length == ENTRIES && sh <= ENTRIES
    && (forall i :: 0 <= i < sh ==> low[i] == Entry(i, WRITE_PRESENT))
  }

  /**
   * The directory after construction: slot sh - 1 maps the directory frame
   * d onto itself; below it, slot 0 points at the low table l and slots 1
   * to sh - 2 are writable but absent. The slots from sh on are never
   * written and keep what the frame held.
   */
  ghost predicate SharedLayout(dir: array<nat>, sh: nat, d: nat, l: nat)
    reads dir
  {
    && dir.Length == ENTRIES && 0 < sh <= ENTRIES
    && dir[sh - 1] == Entry(d, WRITE_PRESENT)
    && (sh > 1 ==> dir[0] == Entry(l, WRITE_PRESENT))
    && (forall i :: 1 <= i < sh - 1 ==> dir[i] == PAGE_WRITE)
  }

  /** The table-initialisation loop of `handle_fault`: every entry becomes `PAGE_LEVEL`, not present. */
  method FillNotPresent(table: array<nat>)
    modifies table
    ensures forall i :: 0 <= i < table.Length ==> table[i] == PAGE_LEVEL && !Present(table[i])
  {
    for k := 0 to table.Length
      invariant forall m :: 0 <= m < k ==> table[m] == PAGE_LEVEL
    {
      table[k] := PAGE_LEVEL;
    }
  }

  class PageTable {
    const state: PagingState
    const dirFrame: nat
    const directory: array<nat>
    const lowFrame: nat
    const lowTable: array<nat>
    /** `reg_vm_pool`, whose length is VM_POOL_SIZE. */
    const pools: array<VMPool?>
    var poolCount: nat

    ghost predicate Valid()
      reads this, state
    {
      && poolCount <= pools.Length
      && directory.Length == ENTRIES
      && dirFrame in state.memory && state.memory[dirFrame] == directory
    }

    /** The registered pools, in registration order. */
    ghost function Registered(): seq<VMPool?>
      reads this, pools
      requires poolCount <= pools.Length
    {
      pools[..poolCount]
    }

    /**
     * The constructor: a directory frame and a low-table frame come from the
     * kernel pool; the low table identity-maps the shared region; slot 0
     * points at the low table; slots below `shared_size / PAGE_SIZE` are
     * writable but absent until the last of them is overwritten with the
     * self-map. Entries from `shared_size / PAGE_SIZE` on are left as the
     * frames held them.
     */
    constructor (st: PagingState, poolCapacity: nat)
      requires st.Valid() && st.Initialized()
      requires |st.kernelPool.free| >= 2
      requires 0 < st.sharedSize / PAGE_SIZE <= ENTRIES
      modifies st`memory, st.kernelPool
      ensures Valid() && st.Valid()
      ensures state == st && poolCount == 0 && pools.Length == poolCapacity
      ensures forall i :: 0 <= i < poolCapacity ==> pools[i] == null
      ensures dirFrame in old(st.kernelPool.free) && lowFrame in old(st.kernelPool.free) && dirFrame != lowFrame
      ensures st.kernelPool.free == old(st.kernelPool.free) - {dirFrame, lowFrame}
      ensures directory.Length == ENTRIES && lowTable.Length == ENTRIES
      ensures st.memory == old(st.memory)[dirFrame := directory][lowFrame := lowTable]
      ensures fresh(directory) && fresh(lowTable) && directory != lowTable
      ensures IdentityLayout(lowTable, st.sharedSize / PAGE_SIZE)
      ensures SharedLayout(directory, st.sharedSize / PAGE_SIZE, dirFrame, lowFrame)
    {
      var d, dir, l, low := st.AllocateKernelFramePair();
      var sh := st.sharedSize / PAGE_SIZE;
      FillIdentity(low, sh);
      FillDirectory(dir, sh, d, l);
      state := st;
      dirFrame := d;
      directory := dir;
      lowFrame := l;
      lowTable := low;
      var none := EmptyPoolList(poolCapacity);
      pools := none;
      poolCount := 0;
    }

    /**
     * With a shared region of the full 4 MiB, the directory the constructor
     * builds keeps the self-map convention: slot 1023 maps the directory,
     * slot 0 the low table, and every other slot is absent.
     */
    lemma FullSharedDirectoryIsReady()
      requires state.Shaped() && directory.Length == ENTRIES
      requires dirFrame in state.memory && state.memory[dirFrame] == directory
      requires lowFrame in state.memory && state.memory[lowFrame] == lowTable && lowTable != directory
      requires directory[SELF_SLOT] == Entry(dirFrame, WRITE_PRESENT)
      requires directory[0] == Entry(lowFrame, WRITE_PRESENT)
      requires forall i :: 1 <= i < SELF_SLOT ==> directory[i] == PAGE_WRITE
      ensures state.WindowReady(this)
      ensures state.TablesUnshared(directory[..])
    {
      EntryFields(dirFrame, WRITE_PRESENT);
      EntryFields(lowFrame, WRITE_PRESENT);
      EntryFields(0, PAGE_WRITE);
      assert forall pd :: 0 <= pd < ENTRIES && Present(directory[pd]) ==> pd == 0 || pd == SELF_SLOT;
    }

    /** The clearing loop of the constructor: VM_POOL_SIZE slots, none registered. */
    static method EmptyPoolList(n: nat) returns (a: array<VMPool?>)
      ensures fresh(a) && a.Length == n
      ensures forall i :: 0 <= i < n ==> a[i] == null
    {
      a := new VMPool?[n];
      for i := 0 to n
        invariant forall k :: 0 <= k < i ==> a[k] == null
      {
        a[i] := null;
      }
    }

    /**
     * The identity loop of the constructor: the first sh entries of the low
     * table map the shared region onto itself, present and writable, and
     * the others are left alone.
     */
    static method FillIdentity(low: array<nat>, sh: nat)
      requires low.Length == ENTRIES && sh <= ENTRIES
      modifies low
      ensures IdentityLayout(low, sh)
      ensures forall i :: sh <= i < ENTRIES ==> low[i] == old(low[i])
    {
      // Entry i holds the address of frame i, with the kernel-mode,
      // writable and present bits.
      var mask := 0;
      for i := 0 to sh
        invariant mask == i * PAGE_SIZE
        invariant forall k :: 0 <= k < i ==> low[k] == Entry(k, WRITE_PRESENT)
        invariant forall k :: sh <= k < ENTRIES ==> low[k] == old(low[k])
      {
        low[i] := mask + PAGE_WRITE + PAGE_PRESENT;
        mask := mask + PAGE_SIZE;
      }
    }

    /**
     * The directory writes of the constructor: slot 0 points at the low
     * table, slots 1 to sh - 2 are writable but absent, slot sh - 1 maps
     * the directory onto itself, and the slots from sh on are left alone.
     */
    static method FillDirectory(dir: array<nat>, sh: nat, d: nat, l: nat)
      requires dir.Length == ENTRIES && 0 < sh <= ENTRIES
      modifies dir
      ensures SharedLayout(dir, sh, d, l)
      ensures forall i :: sh <= i < ENTRIES ==> dir[i] == old(dir[i])
    {
      dir[0] := Entry(l, WRITE_PRESENT);
      for i := 1 to sh
        invariant dir[0] == Entry(l, WRITE_PRESENT)
        invariant forall k :: 1 <= k < i ==> dir[k] == PAGE_WRITE
        invariant forall k :: sh <= k < ENTRIES ==> dir[k] == old(dir[k])
      {
        dir[i] := PAGE_WRITE;
      }
      dir[sh - 1] := Entry(d, WRITE_PRESENT);
    }

    /**
     * After construction with a shared region of at least two pages, every
     * address of the shared region translates to the frame of the same
     * number: the identity map.
     */
    lemma IdentityMapped(a: u32)
      requires state.Shaped() && directory.Length == ENTRIES
      requires dirFrame in state.memory && lowFrame in state.memory && state.memory[lowFrame] == lowTable
      requires var sh := state.sharedSize / PAGE_SIZE;
        && 2 <= sh <= ENTRIES
        && directory[0] == Entry(lowFrame, WRITE_PRESENT)
        && forall i :: 0 <= i < sh ==> lowTable[i] == Entry(i, WRITE_PRESENT)
      requires a < state.sharedSize / PAGE_SIZE * PAGE_SIZE
      ensures state.Walk(directory, a) == Some(a / PAGE_SIZE)
    {
      EntryFields(lowFrame, WRITE_PRESENT);
      EntryFields(a / PAGE_SIZE, WRITE_PRESENT);
      assert DirIndex(a) == 0;
      assert TableIndex(a) == a / PAGE_SIZE;
    }

    /**
     * The pool search of `handle_fault`: the first registered pool that
     * claims a, or -1 when none does.
     */
    method FindPool(a: u32) returns (j: int)
      requires poolCount <= pools.Length
      ensures -1 <= j < poolCount
      ensures j >= 0 ==> pools[j] != null && pools[j].IsLegitimate(a)
      ensures j >= 0 ==> forall k :: 0 <= k < j ==> !(pools[k] != null && pools[k].IsLegitimate(a))
      ensures j < 0 <==> forall k :: 0 <= k < poolCount ==> !(pools[k] != null && pools[k].IsLegitimate(a))
    {
      j := -1;
      var i := 0;
      while i < poolCount && j < 0
        invariant 0 <= i <= poolCount
        invariant -1 <= j < i
        invariant j < 0 ==> forall k :: 0 <= k < i ==> !(pools[k] != null && pools[k].IsLegitimate(a))
        invariant j >= 0 ==> pools[j] != null && pools[j].IsLegitimate(a)
        invariant j >= 0 ==> forall k :: 0 <= k < j ==> !(pools[k] != null && pools[k].IsLegitimate(a))
      {
        if pools[i] != null && pools[i].IsLegitimate(a) {
          j := i;
        }
        i := i + 1;
      }
    }

    /** `load`: this table becomes the current one (the CR3 write is hardware). */
    method Load()
      requires Valid() && state.Valid()
      modifies state`current
      ensures state.current == this && state.Valid()
    {
      state.current := this;
    }

    /**
     * `register_pool`: append while fewer than VM_POOL_SIZE pools are
     * registered; otherwise report and leave the list unchanged.
     */
    method RegisterPool(p: VMPool?)
      requires poolCount <= pools.Length
      modifies this`poolCount, pools
      ensures poolCount <= pools.Length
      ensures old(poolCount) < pools.Length ==> poolCount == old(poolCount) + 1 && Registered() == old(Registered()) + [p]
      ensures old(poolCount) >= pools.Length ==> poolCount == old(poolCount) && pools[..] == old(pools[..])
      ensures forall i :: 0 <= i < pools.Length && i != old(poolCount) ==> pools[i] == old(pools[i])
    {
      if poolCount < pools.Length {
        pools[poolCount] := p;
        poolCount := poolCount + 1;
      }
    }

    /**
     * `free_page`: through the window onto the ACTIVE address space, read
     * the entry of the page, release its frame `entry / PAGE_SIZE` to the
     * process pool, and leave the entry writable but not present. When the
     * page's table is absent the window access itself faults outside every
     * pool, which the model reports as a halt (`ok` false, nothing changed).
     */
    method FreePage(page: u32) returns (ok: bool)
      requires state.Valid() && state.Initialized() && state.current != null && state.WindowReady(state.current)
      requires DirIndex(page) != SELF_SLOT
      modifies state.processPool, state.memory.Values
      ensures state.Valid() && state.WindowReady(state.current)
      ensures ok <==> old(Present(state.current.directory[DirIndex(page)]))
      ensures state.current.directory[..] == old(state.current.directory[..])
      ensures !ok ==>
        && (forall f :: f in state.memory ==> state.memory[f][..] == old(state.memory[f][..]))
        && state.processPool.free == old(state.processPool.free)
      ensures ok ==>
        var tf := FrameOf(state.current.directory[DirIndex(page)]);
        && state.memory[tf][..] == old(state.memory[tf][..])[TableIndex(page) := PAGE_WRITE]
        && (forall f :: f in state.memory && state.memory[f] != state.memory[tf] ==> state.memory[f][..] == old(state.memory[f][..]))
        && var released := FrameOf(old(state.memory[tf][TableIndex(page)]));
           state.processPool.free == old(state.processPool.free) + (if released in old(state.processPool.used) then {released} else {})
      ensures ok ==> state.Walk(state.current.directory, page) == None
      ensures state.processPool.Owned() == old(state.processPool.Owned())
      ensures ok ==> Returned(old(state.Walk(state.current.directory, page)), old(state.processPool.used), state.processPool.free)
      ensures forall b: u32 :: old(state.Walk(state.current.directory, b)) == None ==> state.Walk(state.current.directory, b) == None
      ensures old(state.TablesUnshared(state.current.directory[..])) ==>
        forall b: u32 :: b / PAGE_SIZE != page / PAGE_SIZE ==> state.Walk(state.current.directory, b) == old(state.Walk(state.current.directory, b))
    {
      var pd := DirIndex(page);
      var pt := TableIndex(page);
      var cur := state.current;
      WindowIndices(pd);
      if !Present(cur.directory[pd]) {
        return false;
      }
      ok := true;
      var table := state.WindowFrame(WindowAddress(pd));
      var frameNumber := table[pt] / PAGE_SIZE;
      state.processPool.ReleaseFrame(frameNumber);
      table[pt] := 0 + PAGE_WRITE;
      assert !Present(table[pt]);
      forall b: u32 | old(state.Walk(cur.directory, b)) == None
        ensures state.Walk(cur.directory, b) == None
      {
        var de := cur.directory[DirIndex(b)];
        if Present(de) && FrameOf(de) in state.memory {
          var t := state.memory[FrameOf(de)];
          assert t == table || t[TableIndex(b)] == old(t[TableIndex(b)]);
        }
      }
      if old(state.TablesUnshared(cur.directory[..])) {
        forall b: u32 | b / PAGE_SIZE != page / PAGE_SIZE
          ensures state.Walk(cur.directory, b) == old(state.Walk(cur.directory, b))
        {
          DistinctPagesDistinctSlots(b, page);
          var de := cur.directory[DirIndex(b)];
          if Present(de) && FrameOf(de) in state.memory {
            var t := state.memory[FrameOf(de)];
            if DirIndex(b) != pd {
              assert cur.directory[..][DirIndex(b)] == de && cur.directory[..][pd] == cur.directory[pd];
              assert t != table;
            }
            assert t[TableIndex(b)] == old(t[TableIndex(b)]);
          }
        }
      }
    }
  }

  class VMPool {
    const baseAddress: u32
    const size: u32
    const framePool: FramePool
    const pageTable: PageTable
    /** The descriptor table `to_alloc`, of MAX_REGIONS slots. */
    const regions: array<Region>
    var region: nat

    ghost predicate Valid()
      reads this
    {
      region <= regions.Length
    }

    /** The live descriptors `to_alloc[0..region)`. */
    ghost function Live(): seq<Region>
      reads this, regions
      requires Valid()
    {
      regions[..region]
    }

    /**
     * The constructor: no region is live, and the pool registers itself
     * with its page table. The descriptor table is a separate array of
     * zero descriptors here; in the source it is placed at the base
     * address, in the pool's first page.
     */
    constructor (base: u32, poolSize: u32, fp: FramePool, pt: PageTable, maxRegions: nat)
      requires pt.poolCount <= pt.pools.Length
      modifies pt, pt.pools
      ensures Valid() && region == 0 && regions.Length == maxRegions && fresh(regions)
      ensures baseAddress == base && size == poolSize && framePool == fp && pageTable == pt
      ensures pt.poolCount <= pt.pools.Length
      ensures old(pt.poolCount) < pt.pools.Length ==> pt.poolCount == old(pt.poolCount) + 1 && pt.Registered() == old(pt.Registered()) + [this]
      ensures old(pt.poolCount) >= pt.pools.Length ==> pt.poolCount == old(pt.poolCount) && pt.pools[..] == old(pt.pools[..])
      ensures forall i :: 0 <= i < pt.pools.Length && i != old(pt.poolCount) ==> pt.pools[i] == old(pt.pools[i])
    {
      baseAddress := base;
      size := poolSize;
      framePool := fp;
      pageTable := pt;
      regions := new Region[maxRegions](_ => Region(0, 0));
      region := 0;
      new;
      pt.RegisterPool(this);
    }

    /**
     * `is_legitimate`: the address lies in [base, base + size). The bounds
     * are held in `int` variables but converted back to `unsigned long` for
     * the comparison, so the upper bound is the 32-bit sum.
     */
    predicate IsLegitimate(a: u32): (r: bool)
      ensures baseAddress + size < WORD_LIMIT ==> (r <==> baseAddress <= a < baseAddress + size)
      ensures baseAddress + size >= WORD_LIMIT ==> !r
    {
      baseAddress <= a < Add32(baseAddress, size)
    }

    /**
     * `allocate`: with a zero pool size, return 0 and change nothing (the
     * source tests the pool's size, not the request). With a full table the
     * source's assert halts (`ok` false). Otherwise record a region of the
     * rounded length at the next base and return that base.
     */
    method Allocate(request: u32) returns (addr: u32, ok: bool)
      requires Valid()
      modifies this`region, regions
      ensures Valid()
      ensures ok <==> size == 0 || old(region) < regions.Length
      ensures !ok || size == 0 ==> region == old(region) && regions[..] == old(regions[..])
      ensures size == 0 ==> addr == 0
      ensures ok && size != 0 ==>
        && region == old(region) + 1
        && addr == NextBase(baseAddress, old(Live()))
        && Live() == old(Live()) + [Region(addr, RoundedLength(request))]
        && regions[region..] == old(regions[..])[region..]
      ensures ok && size != 0 && old(region) == 0 ==> addr == Add32(baseAddress, PAGE_SIZE)
      ensures ok && size != 0 && old(Ordered(baseAddress, Live())) && End(baseAddress, old(Live())) < WORD_LIMIT ==>
        Ordered(baseAddress, Live())
    {
      if size == 0 {
        return 0, true;
      }
      if region >= regions.Length {
        return 0, false;
      }
      ok := true;
      ghost var before := regions[..region];
      var length := RoundedLength(request);
      if region == 0 {
        addr := Add32(baseAddress, PAGE_SIZE);
        regions[region] := Region(addr, length);
        region := region + 1;
        assert regions[..region] == before + [Region(addr, length)];
        AppendPreserves(old(Live()), length);
        return;
      }
      addr := Add32(regions[region - 1].base, regions[region - 1].length);
      regions[region] := Region(addr, length);
      region := region + 1;
      assert regions[..region] == before + [Region(addr, length)];
      AppendPreserves(old(Live()), length);
    }

    lemma AppendPreserves(live: seq<Region>, length: u32)
      ensures Ordered(baseAddress, live) && End(baseAddress, live) < WORD_LIMIT ==>
        Ordered(baseAddress, live + [Region(NextBase(baseAddress, live), length)])
    {
      if Ordered(baseAddress, live) && End(baseAddress, live) < WORD_LIMIT {
        AppendKeepsOrder(baseAddress, live, length);
      }
    }

    /** None of the pages pages from start translates to a frame through dir. */
    ghost predicate Unmapped(dir: array<nat>, start: u32, pages: nat)
      reads pageTable.state`memory, dir, pageTable.state.memory.Values
      requires pageTable.state.Shaped() && dir.Length == ENTRIES
    {
      forall k :: 0 <= k < pages ==> pageTable.state.Walk(dir, PageAddress(start, k)) == None
    }

    /** Every one of the pages pages from start has a present directory entry in dir. */
    ghost predicate TablesPresent(dir: array<nat>, start: u32, pages: nat)
      reads dir
      requires dir.Length == ENTRIES
    {
      forall k :: 0 <= k < pages ==> Present(dir[DirIndex(PageAddress(start, k))])
    }

    /**
     * The page loop of `release`: `free_page` on each page of the region
     * in turn, the cursor advancing in 32-bit arithmetic, through the
     * window onto whichever address space is loaded. It stops with `ok`
     * false at the first page whose table is absent (the nested fault
     * halts); otherwise every page of the region translates to nothing.
     * Frames only return to the process pool. When the tables are not
     * aliased, every page outside the region keeps its translation, and
     * every frame the region's pages held from the pool is free again.
     */
    method FreePages(start: u32, pages: nat) returns (ok: bool)
      requires pageTable.state.Valid() && pageTable.state.Initialized()
      requires pageTable.state.current != null && pageTable.state.WindowReady(pageTable.state.current)
      requires start + pages * PAGE_SIZE <= TABLE_WINDOW
      modifies pageTable.state.processPool, pageTable.state.memory.Values
      ensures pageTable.state.Valid() && pageTable.state.WindowReady(pageTable.state.current)
      ensures pageTable.state.current.directory[..] == old(pageTable.state.current.directory[..])
      ensures ok <==> TablesPresent(pageTable.state.current.directory, start, pages)
      ensures ok ==> Unmapped(pageTable.state.current.directory, start, pages)
      ensures old(pageTable.state.processPool.free) <= pageTable.state.processPool.free
      ensures pageTable.state.processPool.Owned() == old(pageTable.state.processPool.Owned())
      ensures old(pageTable.state.TablesUnshared(pageTable.state.current.directory[..])) ==>
        forall b: u32 :: (forall k :: 0 <= k < pages ==> b / PAGE_SIZE != PageAddress(start, k) / PAGE_SIZE) ==>
          pageTable.state.Walk(pageTable.state.current.directory, b) == old(pageTable.state.Walk(pageTable.state.current.directory, b))
      ensures ok && old(pageTable.state.TablesUnshared(pageTable.state.current.directory[..])) ==>
        forall k :: 0 <= k < pages ==>
          Returned(old(pageTable.state.Walk(pageTable.state.current.directory, PageAddress(start, k))), old(pageTable.state.processPool.used), pageTable.state.processPool.free)
    {
      var st := pageTable.state;
      var cur := st.current;
      ghost var unshared := st.TablesUnshared(cur.directory[..]);
      var address := start;
      var i := 0;
      while i < pages
        invariant 0 <= i <= pages
        invariant address == PageAddress(start, i)
        invariant st.Valid() && st.WindowReady(cur) && st.memory == old(st.memory)
        invariant cur.directory[..] == old(cur.directory[..])
        invariant forall k :: 0 <= k < i ==> Present(cur.directory[DirIndex(PageAddress(start, k))])
        invariant Unmapped(cur.directory, start, i)
        invariant old(st.processPool.free) <= st.processPool.free
        invariant st.processPool.Owned() == old(st.processPool.Owned())
        invariant unshared ==>
          forall b: u32 :: (forall k :: 0 <= k < i ==> b / PAGE_SIZE != PageAddress(start, k) / PAGE_SIZE) ==>
            st.Walk(cur.directory, b) == old(st.Walk(cur.directory, b))
        invariant unshared ==>
          forall k :: 0 <= k < i ==> Returned(old(st.Walk(cur.directory, PageAddress(start, k))), old(st.processPool.used), st.processPool.free)
      {
        ghost var freeBefore := st.processPool.free;
        ghost var usedBefore := st.processPool.used;
        ghost var walkBefore := st.Walk(cur.directory, PageAddress(start, i));
        assert unshared ==> walkBefore == old(st.Walk(cur.directory, PageAddress(start, i))) by {
          if unshared {
            forall k | 0 <= k < i
              ensures PageAddress(start, i) / PAGE_SIZE != PageAddress(start, k) / PAGE_SIZE
            {
              RegionPagesDistinct(start, pages, k, i);
            }
          }
        }
        var freed := FreeOnePage(start, pages, i);
        if !freed {
          return false;
        }
        if unshared {
          forall k | 0 <= k < i + 1
            ensures Returned(old(st.Walk(cur.directory, PageAddress(start, k))), old(st.processPool.used), st.processPool.free)
          {
            if k == i && walkBefore.Some? && walkBefore.value in old(st.processPool.used) {
              assert walkBefore.value in usedBefore || walkBefore.value in freeBefore;
            }
          }
        }
        PageAddressStep(start, i);
        address := Add32(address, PAGE_SIZE);
        i := i + 1;
      }
      ok := true;
    }

    /** One turn of the page loop of `release`: free page i of the region. */
    method FreeOnePage(start: u32, pages: nat, i: nat) returns (ok: bool)
      requires pageTable.state.Valid() && pageTable.state.Initialized()
      requires pageTable.state.current != null && pageTable.state.WindowReady(pageTable.state.current)
      requires start + pages * PAGE_SIZE <= TABLE_WINDOW && i < pages
      requires Unmapped(pageTable.state.current.directory, start, i)
      modifies pageTable.state.processPool, pageTable.state.memory.Values
      ensures pageTable.state.Valid() && pageTable.state.WindowReady(pageTable.state.current)
      ensures pageTable.state.current.directory[..] == old(pageTable.state.current.directory[..])
      ensures ok <==> Present(pageTable.state.current.directory[DirIndex(PageAddress(start, i))])
      ensures ok ==> Unmapped(pageTable.state.current.directory, start, i + 1)
      ensures old(pageTable.state.processPool.free) <= pageTable.state.processPool.free
      ensures pageTable.state.processPool.Owned() == old(pageTable.state.processPool.Owned())
      ensures ok ==>
        Returned(old(pageTable.state.Walk(pageTable.state.current.directory, PageAddress(start, i))), old(pageTable.state.processPool.used), pageTable.state.processPool.free)
      ensures old(pageTable.state.TablesUnshared(pageTable.state.current.directory[..])) ==>
        forall b: u32 :: b / PAGE_SIZE != PageAddress(start, i) / PAGE_SIZE ==>
          pageTable.state.Walk(pageTable.state.current.directory, b) == old(pageTable.state.Walk(pageTable.state.current.directory, b))
    {
      var st := pageTable.state;
      var cur := st.current;
      PagesBelowWindow(start, pages, i);
      ok := cur.FreePage(PageAddress(start, i));
      if ok {
        forall k | 0 <= k < i + 1
          ensures st.Walk(cur.directory, PageAddress(start, k)) == None
        {
          if k < i {
            assert old(st.Walk(cur.directory, PageAddress(start, k))) == None;
          }
        }
      }
    }

    /** The shift of `release`: slots after c move down one place and the live count drops. */
    method RemoveSlot(c: nat)
      requires Valid() && c < region
      modifies this`region, regions
      ensures Valid()
      ensures region == old(region) - 1
      ensures Live() == old(Live()[..c] + Live()[c + 1..])
      ensures regions[region..] == old(regions[..])[region..]
      ensures old(Ordered(baseAddress, Live())) ==> Ordered(baseAddress, Live())
    {
      ghost var liveBefore := regions[..region];
      var k := c;
      while k < region - 1
        invariant region == old(region) && c <= k <= region - 1
        invariant forall m :: 0 <= m < c ==> regions[m] == old(regions[m])
        invariant forall m :: c <= m < k ==> regions[m] == old(regions[m + 1])
        invariant forall m :: k <= m < regions.Length ==> regions[m] == old(regions[m])
      {
        regions[k] := regions[k + 1];
        k := k + 1;
      }
      region := region - 1;
      assert regions[..region] == liveBefore[..c] + liveBefore[c + 1..];
      if Ordered(baseAddress, liveBefore) {
        RemoveKeepsOrder(baseAddress, liveBefore, c);
      }
    }

    /**
     * `release`: find the live descriptor starting at start (halting when
     * there is none), free each of its `length / PAGE_SIZE` pages through
     * the address space that is loaded, shift the later descriptors down,
     * drop the live count and load this pool's page table. The search
     * covers the live descriptors only; the source's search also matches
     * stale slots, see VmRegions.StaleSlotSearch.
     */
    method Release(start: u32) returns (ok: bool)
      requires Valid() && pageTable.Valid()
      requires pageTable.state.Valid() && pageTable.state.Initialized()
      requires pageTable.state.current != null && pageTable.state.WindowReady(pageTable.state.current)
      requires forall i :: 0 <= i < region && regions[i].base == start ==> start + regions[i].length <= TABLE_WINDOW
      modifies this`region, regions, pageTable.state`current, pageTable.state.processPool, pageTable.state.memory.Values
      ensures Valid() && pageTable.state.Valid()
      ensures ok ==> pageTable.state.current == pageTable
      ensures !ok ==> pageTable.state.current == old(pageTable.state.current)
      ensures old(pageTable.state.current).directory[..] == old(pageTable.state.current.directory[..])
      ensures pageTable.state.WindowReady(old(pageTable.state.current))
      ensures ok <==>
        && old(FindRegion(regions[..], region, start)).Some?
        && TablesPresent(old(pageTable.state.current).directory, start, old(regions[FindRegion(regions[..], region, start).value].length) / PAGE_SIZE)
      ensures !ok ==> region == old(region) && regions[..] == old(regions[..])
      ensures old(FindRegion(regions[..], region, start)).None? ==>
        pageTable.state.processPool.free == old(pageTable.state.processPool.free)
      ensures old(pageTable.state.processPool.free) <= pageTable.state.processPool.free
      ensures pageTable.state.processPool.Owned() == old(pageTable.state.processPool.Owned())
      ensures ok ==>
        var c := old(FindRegion(regions[..], region, start)).value;
        && region == old(region) - 1
        && Live() == old(Live()[..c] + Live()[c + 1..])
        && regions[region..] == old(regions[..])[region..]
        && Unmapped(old(pageTable.state.current).directory, start, old(regions[c]).length / PAGE_SIZE)
      ensures old(FindRegion(regions[..], region, start)).Some? && old(pageTable.state.TablesUnshared(pageTable.state.current.directory[..])) ==>
        var pages := old(regions[FindRegion(regions[..], region, start).value].length) / PAGE_SIZE;
        forall b: u32 :: (forall k :: 0 <= k < pages ==> b / PAGE_SIZE != PageAddress(start, k) / PAGE_SIZE) ==>
          pageTable.state.Walk(old(pageTable.state.current).directory, b) == old(pageTable.state.Walk(pageTable.state.current.directory, b))
      ensures ok && old(pageTable.state.TablesUnshared(pageTable.state.current.directory[..])) ==>
        var pages := old(regions[FindRegion(regions[..], region, start).value].length) / PAGE_SIZE;
        forall k :: 0 <= k < pages ==>
          Returned(old(pageTable.state.Walk(pageTable.state.current.directory, PageAddress(start, k))), old(pageTable.state.processPool.used), pageTable.state.processPool.free)
      ensures ok && old(Ordered(baseAddress, Live())) ==> Ordered(baseAddress, Live())
    {
      var found := FindRegion(regions[..], region, start);
      if found.None? {
        return false;
      }
      ok := ReleaseAt(found.value, start);
      if ok {
        pageTable.Load();
      }
    }

    /**
     * `release` once the descriptor c of the region at start is found, up
     * to the final `load`: free the region's pages and remove the descriptor.
     */
    method ReleaseAt(c: nat, start: u32) returns (ok: bool)
      requires Valid() && pageTable.Valid() && c < region && start + regions[c].length <= TABLE_WINDOW
      requires pageTable.state.Valid() && pageTable.state.Initialized()
      requires pageTable.state.current != null && pageTable.state.WindowReady(pageTable.state.current)
      modifies this`region, regions, pageTable.state.processPool, pageTable.state.memory.Values
      ensures Valid() && pageTable.state.Valid()
      ensures old(pageTable.state.current).directory[..] == old(pageTable.state.current.directory[..])
      ensures pageTable.state.WindowReady(old(pageTable.state.current))
      ensures ok <==> TablesPresent(old(pageTable.state.current).directory, start, old(regions[c].length) / PAGE_SIZE)
      ensures !ok ==> region == old(region) && regions[..] == old(regions[..])
      ensures old(pageTable.state.processPool.free) <= pageTable.state.processPool.free
      ensures pageTable.state.processPool.Owned() == old(pageTable.state.processPool.Owned())
      ensures ok ==>
        && region == old(region) - 1
        && Live() == old(Live()[..c] + Live()[c + 1..])
        && regions[region..] == old(regions[..])[region..]
        && Unmapped(old(pageTable.state.current).directory, start, old(regions[c]).length / PAGE_SIZE)
      ensures old(pageTable.state.TablesUnshared(pageTable.state.current.directory[..])) ==>
        forall b: u32 :: (forall k :: 0 <= k < old(regions[c].length) / PAGE_SIZE ==> b / PAGE_SIZE != PageAddress(start, k) / PAGE_SIZE) ==>
          pageTable.state.Walk(old(pageTable.state.current).directory, b) == old(pageTable.state.Walk(pageTable.state.current.directory, b))
      ensures ok && old(pageTable.state.TablesUnshared(pageTable.state.current.directory[..])) ==>
        forall k :: 0 <= k < old(regions[c].length) / PAGE_SIZE ==>
          Returned(old(pageTable.state.Walk(pageTable.state.current.directory, PageAddress(start, k))), old(pageTable.state.processPool.used), pageTable.state.processPool.free)
      ensures ok && old(Ordered(baseAddress, Live())) ==> Ordered(baseAddress, Live())
    {
      var pages := regions[c].length / PAGE_SIZE;
      assert pages * PAGE_SIZE <= regions[c].length;
      ok := FreePages(start, pages);
      if !ok {
        return;
      }
      RemoveSlot(c);
    }
  }
}
