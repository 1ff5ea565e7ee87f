/**
 * The IA-32 "32-bit paging" translation format (Intel SDM Vol. 3A,
 * section 4.3): a directory and second-level tables of 1024 32-bit entries,
 * each entry a page-aligned frame address with flag bits below it, and the
 * index arithmetic that splits a virtual address.
 */
module PagingEntries {
  import opened Common

  const PAGE_SIZE: nat := 4096
  const ENTRIES: nat := 1024

  /** Flag bits of an entry: bit 0 present, bit 1 writable, bit 2 level. */
  const PAGE_PRESENT: nat := 1
  const PAGE_WRITE: nat := 2
  const PAGE_LEVEL: nat := 4

  /** The directory slot that maps the directory onto itself. */
  const SELF_SLOT: nat := 1023

  /** Virtual address of the active directory, through the self-map. */
  const DIRECTORY_WINDOW: u32 := 0xFFFF_F000

  /** Virtual base of the window onto the active second-level tables. */
  const TABLE_WINDOW: u32 := 0xFFC0_0000

  /**
   * The word `frame * PAGE_SIZE | flags`. The address is page aligned and
   * the flags lie below PAGE_SIZE, so the bitwise or is a sum.
   */
  function Entry(frame: nat, flags: nat): nat
    requires flags < PAGE_SIZE
  {
    frame * PAGE_SIZE + flags
  }

  predicate Present(e: nat)
  {
    e % 2 == 1
  }

  predicate Writable(e: nat)
  {
    (e / 2) % 2 == 1
  }

  /** The frame number of the address an entry holds: `e / PAGE_SIZE`. */
  function FrameOf(e: nat): nat
  {
    e / PAGE_SIZE
  }

  /** An entry built from a frame and flags gives them back. */
  lemma EntryFields(frame: nat, flags: nat)
    requires flags < PAGE_SIZE
    ensures FrameOf(Entry(frame, flags)) == frame
    ensures Present(Entry(frame, flags)) <==> flags % 2 == 1
    ensures Writable(Entry(frame, flags)) <==> (flags / 2) % 2 == 1
  {
    var e := Entry(frame, flags);
    assert e == (frame * 2048) * 2 + flags;
    assert e / 2 == (frame * 1024) * 2 + flags / 2;
  }

  /** Directory index `addr >> 22`: the 4 MiB region the address lies in. */
  function DirIndex(a: u32): (r: nat)
    ensures r < ENTRIES
    ensures r * 0x40_0000 <= a < (r + 1) * 0x40_0000
  {
    a / 0x40_0000
  }

  /** Table index `(addr >> 12) & 0x3FF`: the page of the address within its 4 MiB region. */
  function TableIndex(a: u32): (r: nat)
    ensures r < ENTRIES
    ensures r * PAGE_SIZE <= a % 0x40_0000 < (r + 1) * PAGE_SIZE
  {
    (a / 0x1000) % 0x400
  }

  /** The window address `0xFFC00000 | (pd << 12)` of the table behind slot pd. */
  function WindowAddress(pd: nat): (r: u32)
    requires pd < ENTRIES
    ensures r % PAGE_SIZE == 0 && r / PAGE_SIZE == TABLE_WINDOW / PAGE_SIZE + pd
  {
    TABLE_WINDOW + pd * PAGE_SIZE
  }

  /**
   * Splitting an address: its page number is the directory index followed
   * by the table index, so two addresses in different pages differ in one
   * of the two indices.
   */
  lemma PageSplit(a: u32)
    ensures a / PAGE_SIZE == DirIndex(a) * ENTRIES + TableIndex(a)
  {
    var p := a / PAGE_SIZE;
    assert DirIndex(a) == p / ENTRIES;
  }

  lemma DistinctPagesDistinctSlots(a: u32, b: u32)
    requires a / PAGE_SIZE != b / PAGE_SIZE
    ensures DirIndex(a) != DirIndex(b) || TableIndex(a) != TableIndex(b)
  {
    PageSplit(a);
    PageSplit(b);
  }

  /**
   * The self-map window: the directory window and every table window go
   * through the self slot, and table window pd selects slot pd of the
   * directory.
   */
  lemma WindowIndices(pd: nat)
    requires pd < ENTRIES
    ensures DirIndex(DIRECTORY_WINDOW) == SELF_SLOT && TableIndex(DIRECTORY_WINDOW) == SELF_SLOT
    ensures DirIndex(WindowAddress(pd)) == SELF_SLOT
    ensures TableIndex(WindowAddress(pd)) == pd
  {
    var w := WindowAddress(pd);
    assert w / 0x1000 == 0xFFC00 + pd;
  }
}
