/**
 * The value level of the virtual-memory region allocator: region
 * descriptors, the page rounding of a request, where the next region is
 * placed, the ordered layout the bump allocator keeps, and the search that
 * `release` performs over the descriptor table.
 */
module VmRegions {
  import opened Common
  import opened PagingEntries

  /** One `to_alloc` descriptor: a region's base address and length. */
  datatype Region = Region(base: u32, length: u32)

  /**
   * The recorded length of a request (vm_pool.C:70-74,78,85): the number of
   * pages, rounded up, times PAGE_SIZE, computed in 32-bit `unsigned long`.
   */
  function RoundedLength(request: u32): u32
  {
    var frames := request / PAGE_SIZE + (if request % PAGE_SIZE > 0 then 1 else 0);
    (frames * PAGE_SIZE) % WORD_LIMIT
  }

  /** Below the last page of the address space the rounding is exact. */
  lemma RoundedLengthIsSmallestMultiple(request: u32)
    requires request <= WORD_LIMIT - PAGE_SIZE
    ensures RoundedLength(request) % PAGE_SIZE == 0
    ensures request <= RoundedLength(request) < request + PAGE_SIZE
  {
    var frames := request / PAGE_SIZE + (if request % PAGE_SIZE > 0 then 1 else 0);
    assert frames <= 0x10_0000 - 1;
    assert frames * PAGE_SIZE < WORD_LIMIT;
  }

  /** A request in the last page rounds to 2^32, which the 32-bit product wraps to 0. */
  lemma RoundedLengthWraps(request: u32)
    requires request > WORD_LIMIT - PAGE_SIZE
    ensures RoundedLength(request) == 0
  {
    assert request / PAGE_SIZE == 0x10_0000 - 1;
  }

  /** The address of page k of a region starting at start, in 32-bit arithmetic. */
  function PageAddress(start: u32, k: nat): u32
  {
    (start + k * PAGE_SIZE) % WORD_LIMIT
  }

  /** Advancing the cursor by one page in 32-bit arithmetic reaches the next page's address. */
  lemma PageAddressStep(start: u32, k: nat)
    ensures PageAddress(start, k + 1) == Add32(PageAddress(start, k), PAGE_SIZE)
  {
    var s := start + k * PAGE_SIZE;
    assert start + (k + 1) * PAGE_SIZE == s + PAGE_SIZE;
    assert (s % WORD_LIMIT + PAGE_SIZE) % WORD_LIMIT == (s + PAGE_SIZE) % WORD_LIMIT;
  }

  /**
   * The pages of a region that ends at or below the table window do not
   * wrap and never fall in the self-mapped top 4 MiB.
   */
  lemma PagesBelowWindow(start: u32, pages: nat, k: nat)
    requires start + pages * PAGE_SIZE <= TABLE_WINDOW
    requires k < pages
    ensures PageAddress(start, k) == start + k * PAGE_SIZE
    ensures DirIndex(PageAddress(start, k)) != SELF_SLOT
  {
    assert (k + 1) * PAGE_SIZE <= pages * PAGE_SIZE;
    assert start + k * PAGE_SIZE < TABLE_WINDOW;
  }

  /** Distinct pages of a region below the table window lie in distinct virtual pages. */
  lemma RegionPagesDistinct(start: u32, pages: nat, j: nat, k: nat)
    requires start + pages * PAGE_SIZE <= TABLE_WINDOW
    requires j < k < pages
    ensures PageAddress(start, j) / PAGE_SIZE < PageAddress(start, k) / PAGE_SIZE
  {
    PagesBelowWindow(start, pages, j);
    PagesBelowWindow(start, pages, k);
    assert start + j * PAGE_SIZE + PAGE_SIZE <= start + k * PAGE_SIZE;
  }

  /**
   * Where the next region goes (vm_pool.C:75-84): right after the reserved
   * descriptor page when no region is live, otherwise right after the
   * last live region.
   */
  function NextBase(poolBase: u32, live: seq<Region>): u32
  {
    if |live| == 0 then Add32(poolBase, PAGE_SIZE)
    else Add32(live[|live| - 1].base, live[|live| - 1].length)
  }

  /** The end of the last live region, or of the descriptor page, as an unbounded number. */
  function End(poolBase: u32, live: seq<Region>): nat
  {
    if |live| == 0 then poolBase + PAGE_SIZE
    else live[|live| - 1].base + live[|live| - 1].length
  }

  /**
   * The layout of the live descriptors: the first lies above the reserved
   * descriptor page and each ends at or before the next begins.
   */
  ghost predicate Ordered(poolBase: u32, live: seq<Region>)
  {
    && (|live| > 0 ==> poolBase + PAGE_SIZE <= live[0].base)
    && forall i :: 0 <= i < |live| - 1 ==> live[i].base + live[i].length <= live[i + 1].base
  }

  /** No ordered descriptor covers the descriptor page. */
  lemma {:induction false} OrderedAbovePage(poolBase: u32, live: seq<Region>, i: nat)
    requires Ordered(poolBase, live)
    requires i < |live|
    ensures poolBase + PAGE_SIZE <= live[i].base
  {
    if i > 0 {
      OrderedAbovePage(poolBase, live, i - 1);
    }
  }

  /** Ordered descriptors never overlap. */
  lemma {:induction false} OrderedDisjoint(poolBase: u32, live: seq<Region>, i: nat, j: nat)
    requires Ordered(poolBase, live)
    requires i < j < |live|
    ensures live[i].base + live[i].length <= live[j].base
    decreases j - i
  {
    if i + 1 < j {
      OrderedDisjoint(poolBase, live, i + 1, j);
    }
  }

  /** Bump placement keeps the layout ordered as long as the new base does not wrap past 2^32. */
  lemma AppendKeepsOrder(poolBase: u32, live: seq<Region>, length: u32)
    requires Ordered(poolBase, live)
    requires End(poolBase, live) < WORD_LIMIT
    ensures NextBase(poolBase, live) == End(poolBase, live)
    ensures Ordered(poolBase, live + [Region(NextBase(poolBase, live), length)])
  {
    var r := live + [Region(NextBase(poolBase, live), length)];
    forall i | 0 <= i < |r| - 1
      ensures r[i].base + r[i].length <= r[i + 1].base
    {
      if i < |live| - 1 {
        assert r[i] == live[i] && r[i + 1] == live[i + 1];
      }
    }
  }

  /** Compacting the table after a release keeps the layout ordered. */
  lemma RemoveKeepsOrder(poolBase: u32, live: seq<Region>, c: nat)
    requires Ordered(poolBase, live)
    requires c < |live|
    ensures Ordered(poolBase, live[..c] + live[c + 1..])
  {
    var r := live[..c] + live[c + 1..];
    if |r| > 0 {
      if c == 0 {
        assert r[0] == live[1];
        OrderedDisjoint(poolBase, live, 0, 1);
      } else {
        assert r[0] == live[0];
      }
    }
    forall i | 0 <= i < |r| - 1
      ensures r[i].base + r[i].length <= r[i + 1].base
    {
      if i + 1 < c {
        assert r[i] == live[i] && r[i + 1] == live[i + 1];
      } else if i + 1 == c {
        assert r[i] == live[i] && r[i + 1] == live[i + 2];
        OrderedDisjoint(poolBase, live, i, i + 2);
      } else {
        assert r[i] == live[i + 1] && r[i + 1] == live[i + 2];
      }
    }
  }

  /** The first of slots[from..limit) whose base is addr. */
  function FirstBase(slots: seq<Region>, addr: u32, from: nat, limit: nat): (r: Option<nat>)
    requires from <= limit <= |slots|
    ensures r.Some? ==> from <= r.value < limit && slots[r.value].base == addr
    ensures r.Some? ==> forall k :: from <= k < r.value ==> slots[k].base != addr
    ensures r.None? ==> forall k :: from <= k < limit ==> slots[k].base != addr
    decreases limit - from
  {
    if from == limit then None
    else if slots[from].base == addr then Some(from)
    else FirstBase(slots, addr, from + 1, limit)
  }

  /**
   * The search of vm_pool.C:93-99 as written: over all MAX_REGIONS slots,
   * including stale ones at or beyond the live count.
   */
  function FindSlotAsWritten(slots: seq<Region>, addr: u32): (r: Option<nat>)
    ensures r.Some? ==> r.value < |slots| && slots[r.value].base == addr
    ensures r.Some? ==> forall k :: 0 <= k < r.value ==> slots[k].base != addr
    ensures r.None? <==> forall k :: 0 <= k < |slots| ==> slots[k].base != addr
  {
    FirstBase(slots, addr, 0, |slots|)
  }

  /**
   * The intended search: the first live descriptor whose base is addr; no
   * result exactly when no live descriptor starts there.
   */
  function FindRegion(slots: seq<Region>, count: nat, addr: u32): (r: Option<nat>)
    requires count <= |slots|
    ensures r.Some? ==> r.value < count && slots[r.value].base == addr
    ensures r.Some? ==> forall k :: 0 <= k < r.value ==> slots[k].base != addr
    ensures r.None? <==> forall k :: 0 <= k < count ==> slots[k].base != addr
  {
    FirstBase(slots, addr, 0, count)
  }

  /**
   * Two regions A and B are allocated and B is released, so the table holds
   * [A, B] with one live slot. Releasing B again matches the stale slot 1:
   * the as-written release then decrements the count to 0, forgetting A,
   * and the next allocation is placed at A's base while A is still in use.
   * The intended search finds no live B, which the source treats as fatal.
   */
  lemma StaleSlotSearch()
    ensures
      var poolBase: u32 := 0x4000_0000;
      var a := Region(0x4000_1000, 0x1000);
      var b := Region(0x4000_2000, 0x1000);
      && FindSlotAsWritten([a, b], b.base) == Some(1)
      && FindRegion([a, b], 1, b.base) == None
      && NextBase(poolBase, [a, b][..0]) == a.base
  {
    var a := Region(0x4000_1000, 0x1000);
    var b := Region(0x4000_2000, 0x1000);
    var slots := [a, b];
    assert FirstBase(slots, b.base, 0, 2) == FirstBase(slots, b.base, 1, 2) == Some(1);
    assert FirstBase(slots, b.base, 0, 1) == FirstBase(slots, b.base, 1, 1) == None;
  }
}
