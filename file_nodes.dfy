/**
 * The value level of the flat file system: the sizes `Format` derives from
 * the disk size, the node records of the node table and what each
 * operation does to one, the first-match search over the table, the
 * allocation of blocks one after another, and the number of bytes a
 * sequential read delivers.
 */
module FileNodes {
  import opened Common
  import opened BlockMaps

  const BLOCK_SIZE: nat := 512
  /** Block slots per node, and the length of a file's block list. */
  const BLOCK_LIMIT: nat := 16
  /** A read returns once the cursor's block index passes this. */
  const LAST_INDEX: nat := 15

  /** What `Format` derives from the disk size: blocks, nodes and node-table blocks. */
  datatype Layout = Layout(numBlocks: nat, mNodes: nat, mBlocks: nat)

  /**
   * `Format`'s arithmetic (file_system.C:55-57): one block more than the
   * whole blocks of the size, one node per BLOCK_LIMIT blocks and one
   * more, and one metadata block more than the whole blocks the nodes take.
   */
  function FormatLayout(size: nat, nodeBytes: nat): (l: Layout)
    ensures size < l.numBlocks * BLOCK_SIZE <= size + BLOCK_SIZE
    ensures l.numBlocks < l.mNodes * BLOCK_LIMIT <= l.numBlocks + BLOCK_LIMIT
    ensures l.mNodes * nodeBytes < l.mBlocks * BLOCK_SIZE <= l.mNodes * nodeBytes + BLOCK_SIZE
  {
    var numBlocks := size / BLOCK_SIZE + 1;
    var mNodes := numBlocks / BLOCK_LIMIT + 1;
    Layout(numBlocks, mNodes, (mNodes * nodeBytes) / BLOCK_SIZE + 1)
  }

  /**
   * With a node record of at most half a block, the node table fits in the
   * blocks `Format` zeroes, and there is at least one block.
   */
  lemma LayoutFits(size: nat, nodeBytes: nat)
    requires 0 < nodeBytes <= BLOCK_SIZE / 2
    ensures 1 <= FormatLayout(size, nodeBytes).mBlocks <= FormatLayout(size, nodeBytes).numBlocks
  {
    var l := FormatLayout(size, nodeBytes);
    var nb, mn := l.numBlocks, l.mNodes;
    var x := mn * nodeBytes;
    MulMono(mn, nodeBytes, BLOCK_SIZE / 2);
    assert x <= mn * 256;
    assert mn * 16 <= nb + 16 && nb >= 1;
    assert x < nb * 512;
    assert l.mBlocks * 512 <= x + 512;
  }

  /** Multiplying by a larger factor gives no less. */
  lemma {:induction false} MulMono(a: nat, b: nat, c: nat)
    requires b <= c
    ensures a * b <= a * c
  {
    if a > 0 {
      MulMono(a - 1, b, c);
      assert a * b == (a - 1) * b + b && a * c == (a - 1) * c + c;
    }
  }

  /** The byte j of the free-block map after `Format` reserves m node-table blocks: full bytes, then the partial byte, then free bytes. */
  function FormatByte(j: nat, m: nat): (r: byte)
    ensures forall k :: 0 <= k < 8 ==> (r & Bit(k) != 0 <==> 8 * j + k < m)
  {
    if j < m / 8 then
      assert forall k :: 0 <= k < 8 ==> 0xFF & Bit(k) != 0;
      0xFF
    else if j == m / 8 then ReserveByte(m % 8)
    else
      assert forall k :: 0 <= k < 8 ==> (0 as byte) & Bit(k) == 0;
      0
  }

  /**
   * The same byte with the partial byte as file_system.C:68-71 computes it.
   * It differs from the intended byte only at the partial byte; with fewer
   * than 8 node-table blocks it is 0 throughout.
   */
  function FormatByteAsWritten(j: nat, m: nat): (r: byte)
    ensures j != m / 8 ==> r == FormatByte(j, m)
    ensures m < 8 ==> r == 0
  {
    if j < m / 8 then 0xFF else if j == m / 8 then ReserveByteAsWritten(m / 8, m % 8) else 0
  }

  /** After `Format`, a block is marked in use exactly when it holds the node table. */
  lemma FormattedMap(bits: seq<byte>, bytes: nat, m: nat)
    requires bytes <= |bits|
    requires forall j :: 0 <= j < bytes ==> bits[j] == FormatByte(j, m)
    ensures forall b :: 0 <= b < 8 * bytes ==> (IsSet(bits, b) <==> b < m)
  {
    forall b | 0 <= b < 8 * bytes ensures IsSet(bits, b) <==> b < m {
      var j, k := b / 8, b % 8;
      assert Mask(b) == Bit(k);
      if j < m / 8 {
        assert 0xFF & Bit(k) != 0;
      } else if j == m / 8 {
        assert b < m <==> k < m % 8;
      } else {
        assert (0 as byte) & Bit(k) == 0;
      }
    }
  }

  /**
   * With fewer than eight node-table blocks, as written, `Format` leaves
   * every block free, so the first-fit search hands out block 0, which
   * holds the node table; the intended map hands out the first block after
   * the table.
   */
  lemma NodeTableLeftFree(m: nat)
    requires 0 < m < 8
    ensures FormatByteAsWritten(0, m) == 0
    ensures LowestClear([FormatByteAsWritten(0, m)], 1, 0) == Some(0)
    ensures LowestClear([FormatByte(0, m)], 1, 0) == Some(m)
  {
    PartialByteAsWritten(m);
  }

  /** The map as written, with fewer than eight node-table blocks, marks no block in use. */
  lemma AsWrittenMapClear(bits: seq<byte>, bytes: nat, m: nat)
    requires m < 8 && bytes <= |bits|
    requires forall j :: 0 <= j < bytes ==> bits[j] == FormatByteAsWritten(j, m)
    ensures forall b :: 0 <= b < 8 * bytes ==> !IsSet(bits, b)
  {
    if 0 < m {
      PartialByteAsWritten(m);
    }
    forall b | 0 <= b < 8 * bytes ensures !IsSet(bits, b) {
      assert bits[b / 8] == 0;
      assert (0 as byte) & Mask(b) == 0;
    }
  }

  /** One `m_node`: the file id (0 for a free node), its size, `b_size` and its block list. */
  datatype MNode = MNode(fd: int, size: int, bSize: int, block: seq<int>)

  /** A node as a zero-filled metadata block holds it: free, with no blocks. */
  function EmptyNode(): (n: MNode)
    ensures n.fd == 0 && |n.block| == BLOCK_LIMIT
    ensures forall k :: 0 <= k < BLOCK_LIMIT ==> n.block[k] == 0
  {
    MNode(0, 0, 0, seq(BLOCK_LIMIT, _ => 0))
  }

  /** A block of zero bytes, as `Format` and `EraseFile` write them. */
  function ZeroBlock(): (b: seq<byte>)
    ensures |b| == BLOCK_SIZE && forall k :: 0 <= k < BLOCK_SIZE ==> b[k] == 0
  {
    seq(BLOCK_SIZE, _ => 0)
  }

  /** The first node among table[from..count) that belongs to fd. */
  function FirstFrom(table: seq<MNode>, count: nat, fd: int, from: nat): (r: Option<nat>)
    requires from <= count <= |table|
    ensures r.Some? ==> from <= r.value < count && table[r.value].fd == fd
    ensures r.Some? ==> forall k :: from <= k < r.value ==> table[k].fd != fd
    ensures r.None? <==> forall k :: from <= k < count ==> table[k].fd != fd
    decreases count - from
  {
    if from == count then None
    else if table[from].fd == fd then Some(from)
    else FirstFrom(table, count, fd, from + 1)
  }

  /**
   * The scan every table operation makes over the m_blocks node-table
   * blocks in order, NODES_PER_BLOCK nodes each: the first node of fd.
   */
  function FirstNode(table: seq<MNode>, count: nat, fd: int): (r: Option<nat>)
    requires count <= |table|
    ensures r.Some? ==> r.value < count && table[r.value].fd == fd
    ensures r.Some? ==> forall k :: 0 <= k < r.value ==> table[k].fd != fd
    ensures r.None? <==> forall k :: 0 <= k < count ==> table[k].fd != fd
  {
    FirstFrom(table, count, fd, 0)
  }

  /** No two nodes among the first count carry the same nonzero id. */
  ghost predicate UniqueIds(table: seq<MNode>, count: nat)
    requires count <= |table|
  {
    forall i, j :: 0 <= i < j < count && table[i].fd != 0 ==> table[i].fd != table[j].fd
  }

  /** Only the first node of an id under UniqueIds can carry it. */
  lemma UniqueFirst(table: seq<MNode>, count: nat, fd: int, k: nat)
    requires count <= |table| && UniqueIds(table, count) && fd != 0
    requires FirstNode(table, count, fd) == Some(k)
    ensures forall i :: 0 <= i < count && i != k ==> table[i].fd != fd
  {
  }

  /**
   * Giving the first free node an id that no node has keeps the ids
   * unique, and the id is then found there.
   */
  lemma TakeKeepsUnique(table: seq<MNode>, count: nat, fd: int, k: nat, n: MNode)
    requires count <= |table| && UniqueIds(table, count) && fd != 0
    requires FirstNode(table, count, fd).None? && FirstNode(table, count, 0) == Some(k)
    requires n.fd == fd
    ensures UniqueIds(table[k := n], count)
    ensures FirstNode(table[k := n], count, fd) == Some(k)
  {
    var t := table[k := n];
    assert t[k].fd == fd;
    assert forall i :: 0 <= i < k ==> t[i] == table[i];
  }

  /** Freeing the only node of an id keeps the ids unique, and the id is then not found. */
  lemma FreeKeepsUnique(table: seq<MNode>, count: nat, fd: int, k: nat)
    requires count <= |table| && UniqueIds(table, count) && fd != 0
    requires FirstNode(table, count, fd) == Some(k)
    ensures UniqueIds(table[k := EmptyNode()], count)
    ensures FirstNode(table[k := EmptyNode()], count, fd).None?
  {
    UniqueFirst(table, count, fd, k);
  }

  /** A change that keeps every node's id keeps the ids unique and every search result. */
  lemma SameIdsKeepUnique(table: seq<MNode>, count: nat, k: nat, n: MNode)
    requires count <= |table| && k < |table| && n.fd == table[k].fd
    ensures UniqueIds(table, count) ==> UniqueIds(table[k := n], count)
    ensures forall fd :: FirstNode(table[k := n], count, fd) == FirstNode(table, count, fd)
  {
    forall fd ensures FirstNode(table[k := n], count, fd) == FirstNode(table, count, fd) {
      SameIdsSameFirst(table, table[k := n], count, fd, 0);
    }
  }

  lemma {:induction false} SameIdsSameFirst(t: seq<MNode>, u: seq<MNode>, count: nat, fd: int, from: nat)
    requires from <= count <= |t| == |u|
    requires forall i :: 0 <= i < |t| ==> t[i].fd == u[i].fd
    ensures FirstFrom(t, count, fd, from) == FirstFrom(u, count, fd, from)
    decreases count - from
  {
    if from < count {
      SameIdsSameFirst(t, u, count, fd, from + 1);
    }
  }

  /**
   * A node taken by `CreateFile`: the id, the new first block, and `b_size`
   * 0, the index of its last recorded block. (As written `CreateFile`
   * records 1; see CreatedAsWritten.)
   */
  function Created(n: MNode, fd: int, b: int): (r: MNode)
    requires |n.block| == BLOCK_LIMIT
    ensures r.fd == fd && r.size == n.size && r.bSize == 0 && |r.block| == BLOCK_LIMIT
    ensures r.block[0] == b && r.block[1..] == n.block[1..]
  {
    n.(fd := fd, bSize := 0, block := n.block[0 := b])
  }

  /** `CreateFile`'s node as file_system.C:128-133 writes it, with `b_size` 1. */
  function CreatedAsWritten(n: MNode, fd: int, b: int): (r: MNode)
    requires |n.block| == BLOCK_LIMIT
    ensures r.fd == fd && r.size == n.size && r.bSize == 1 && |r.block| == BLOCK_LIMIT
    ensures r.block[0] == b && r.block[1..] == n.block[1..]
  {
    n.(fd := fd, bSize := 1, block := n.block[0 := b])
  }

  /** `UpdateBlockData`: `b_size` moves up one, and the block goes into the slot it now names. */
  function WithBlock(n: MNode, b: int): (r: MNode)
    requires 0 <= n.bSize && n.bSize + 1 < |n.block|
    ensures r.fd == n.fd && r.size == n.size && r.bSize == n.bSize + 1
    ensures |r.block| == |n.block| && r.block[n.bSize + 1] == b
    ensures forall k :: 0 <= k < |n.block| && k != n.bSize + 1 ==> r.block[k] == n.block[k]
  {
    n.(bSize := n.bSize + 1, block := n.block[n.bSize + 1 := b])
  }

  /** A node after `UpdateBlockData` has recorded the blocks bs in turn. */
  function AppendBlocks(n: MNode, bs: seq<nat>): (r: MNode)
    requires 0 <= n.bSize && n.bSize + |bs| < |n.block|
  {
    n.(bSize := n.bSize + |bs|, block := n.block[..n.bSize + 1] + bs + n.block[n.bSize + 1 + |bs|..])
  }

  /**
   * The blocks land in the slots after the last recorded one, in the order
   * they were recorded; nothing else in the node changes.
   */
  lemma AppendBlocksMeaning(n: MNode, bs: seq<nat>)
    requires 0 <= n.bSize && n.bSize + |bs| < |n.block|
    ensures AppendBlocks(n, []) == n
    ensures var r := AppendBlocks(n, bs);
      && r.fd == n.fd && r.size == n.size && r.bSize == n.bSize + |bs| && |r.block| == |n.block|
      && (forall k :: 0 <= k < |bs| ==> r.block[n.bSize + 1 + k] == bs[k])
      && (forall k :: 0 <= k < |n.block| && !(n.bSize < k <= n.bSize + |bs|) ==> r.block[k] == n.block[k])
  {
    assert n.block[..n.bSize + 1] + [] + n.block[n.bSize + 1..] == n.block;
  }

  /** Recording one more block is appending it. */
  lemma AppendBlocksStep(n: MNode, bs: seq<nat>, b: nat)
    requires 0 <= n.bSize && n.bSize + |bs| + 1 < |n.block|
    ensures WithBlock(AppendBlocks(n, bs), b) == AppendBlocks(n, bs + [b])
  {
    var l, r := WithBlock(AppendBlocks(n, bs), b), AppendBlocks(n, bs + [b]);
    AppendBlocksMeaning(n, bs);
    AppendBlocksMeaning(n, bs + [b]);
    assert l.block == r.block;
  }

  /** In a table, recording one more block on node k is appending it to the blocks recorded there. */
  lemma TableAppendStep(t0: seq<MNode>, k: nat, taken: seq<nat>, b: nat)
    requires k < |t0| && 0 <= t0[k].bSize && t0[k].bSize + |taken| + 1 < |t0[k].block|
    ensures
      var t1 := t0[k := AppendBlocks(t0[k], taken)];
      && 0 <= t1[k].bSize && t1[k].bSize + 1 < |t1[k].block|
      && t1[k := WithBlock(t1[k], b)] == t0[k := AppendBlocks(t0[k], taken + [b])]
  {
    AppendBlocksStep(t0[k], taken, b);
  }

  /** `EraseFile` on one node: size and `b_size` 0, every block but the first dropped from the list. */
  function Erased(n: MNode): (r: MNode)
    requires |n.block| == BLOCK_LIMIT
    ensures r.fd == n.fd && r.size == 0 && r.bSize == 0 && |r.block| == BLOCK_LIMIT
    ensures r.block[0] == n.block[0] && forall k :: 1 <= k < BLOCK_LIMIT ==> r.block[k] == 0
  {
    n.(size := 0, bSize := 0, block := [n.block[0]] + seq(BLOCK_LIMIT - 1, _ => 0))
  }

  /**
   * The blocks of a node are recorded without gaps: slots 0..b_size hold
   * blocks and the slots after them are empty.
   */
  ghost predicate Contiguous(n: MNode)
  {
    && |n.block| == BLOCK_LIMIT && 0 <= n.bSize < BLOCK_LIMIT
    && forall k :: 0 <= k < BLOCK_LIMIT ==> (n.block[k] != 0 <==> k <= n.bSize)
  }

  /**
   * With `b_size` naming the last recorded slot, a created node is
   * contiguous, recording a further block keeps it so, and so does erasing.
   */
  lemma BlockListStaysContiguous(n: MNode, fd: int, b: int)
    requires |n.block| == BLOCK_LIMIT && b != 0
    ensures (forall k :: 1 <= k < BLOCK_LIMIT ==> n.block[k] == 0) ==> Contiguous(Created(n, fd, b))
    ensures Contiguous(n) && n.bSize + 1 < BLOCK_LIMIT ==> Contiguous(WithBlock(n, b))
    ensures Contiguous(n) ==> Contiguous(Erased(n))
  {
    if forall k :: 1 <= k < BLOCK_LIMIT ==> n.block[k] == 0 {
      var c := Created(n, fd, b);
      forall k | 0 <= k < BLOCK_LIMIT ensures c.block[k] != 0 <==> k <= c.bSize {
        if k > 0 {
          assert c.block[k] == c.block[1..][k - 1] == n.block[1..][k - 1] == n.block[k];
        }
      }
    }
    if Contiguous(n) {
      assert n.block[0] != 0;
    }
  }

  /**
   * As written, a new file records `b_size` 1, so when its first write
   * fills block[0] the next block is stored in block[2]; block[1] stays
   * 0, and a later read of the file's second block reads block 0, the
   * node table.
   */
  lemma SecondSlotSkipped(fd: int, b0: int, b1: int)
    requires b0 != 0 && b1 != 0
    ensures WithBlock(CreatedAsWritten(EmptyNode(), fd, b0), b1).block[1] == 0
    ensures WithBlock(CreatedAsWritten(EmptyNode(), fd, b0), b1).block[2] == b1
    ensures !Contiguous(WithBlock(CreatedAsWritten(EmptyNode(), fd, b0), b1))
    ensures WithBlock(Created(EmptyNode(), fd, b0), b1).block[1] == b1
  {
    var n := WithBlock(CreatedAsWritten(EmptyNode(), fd, b0), b1);
    assert n.block[2] != 0 && n.bSize == 2;
  }

  // ---------------------------------------------------------------------------
  // Allocation of blocks one after another

  /** The map and block number `GetBlock` leaves: the lowest clear block set, or 0 and no change. */
  datatype Allocation = Allocation(bits: seq<byte>, blocks: seq<nat>)

  function Allocate(m: seq<byte>, bytes: nat): (r: (seq<byte>, nat))
    requires bytes <= |m|
    ensures |r.0| == |m|
    ensures r.1 == 0 || r.1 < 8 * bytes
  {
    match LowestClear(m, bytes, 0)
    case Some(b) => (SetBit(m, b), b)
    case None => (m, 0)
  }

  /** The first-fit allocation marks exactly the block it returns, and fails only on a full map. */
  lemma AllocateMeaning(m: seq<byte>, bytes: nat)
    requires bytes <= |m|
    ensures LowestClear(m, bytes, 0).None? <==> forall c :: 0 <= c < 8 * bytes ==> IsSet(m, c)
    ensures LowestClear(m, bytes, 0).None? ==> Allocate(m, bytes) == (m, 0)
    ensures LowestClear(m, bytes, 0).Some? ==>
      var b := Allocate(m, bytes).1;
      && !IsSet(m, b) && (forall c :: 0 <= c < b ==> IsSet(m, c))
      && forall c :: 0 <= c < 8 * |m| ==> (IsSet(Allocate(m, bytes).0, c) <==> c == b || IsSet(m, c))
  {
    if LowestClear(m, bytes, 0).Some? {
      var b := Allocate(m, bytes).1;
      forall c | 0 <= c < 8 * |m| ensures IsSet(Allocate(m, bytes).0, c) <==> c == b || IsSet(m, c) {
        SetBitMeaning(m, b, c);
      }
    }
  }

  /** A successful allocation hands out a block that was free and is now in use. */
  lemma AllocateTakes(m: seq<byte>, bytes: nat)
    requires bytes <= |m|
    ensures var first := Allocate(m, bytes);
      first.1 != 0 ==> first.1 < 8 * bytes && !IsSet(m, first.1) && IsSet(first.0, first.1)
  {
    var first := Allocate(m, bytes);
    if first.1 != 0 {
      assert LowestClear(m, bytes, 0).Some?;
      SetBitMeaning(m, first.1, first.1);
    }
  }

  /** An allocation leaves every block in use in use. */
  lemma AllocateKeeps(m: seq<byte>, bytes: nat, c: nat)
    requires bytes <= |m| && c / 8 < |m| && IsSet(m, c)
    ensures IsSet(Allocate(m, bytes).0, c)
  {
    match LowestClear(m, bytes, 0)
    case Some(b) => SetBitMeaning(m, b, c);
    case None =>
  }

  /** `FreeBlock(GetBlock())` gives back the map it started from. */
  lemma FreeAfterAllocate(m: seq<byte>, bytes: nat)
    requires bytes <= |m|
    requires LowestClear(m, bytes, 0).Some?
    ensures ClearBit(Allocate(m, bytes).0, Allocate(m, bytes).1) == m
  {
    FreeUndoesSet(m, Allocate(m, bytes).1);
  }

  /** A clear block with every block below it in use is the one the search finds. */
  lemma LowestClearIs(m: seq<byte>, bytes: nat, b: nat)
    requires bytes <= |m| && b < 8 * bytes && !IsSet(m, b)
    requires forall c :: 0 <= c < b ==> IsSet(m, c)
    ensures LowestClear(m, bytes, 0) == Some(b)
  {
  }

  /** On a map whose searched bytes are all in use the allocation fails and changes nothing. */
  lemma AllocateFull(m: seq<byte>, bytes: nat)
    requires bytes <= |m|
    requires forall c :: 0 <= c < 8 * bytes ==> IsSet(m, c)
    ensures Allocate(m, bytes) == (m, 0)
  {
    assert LowestClear(m, bytes, 0).None?;
  }

  /**
   * The loops of `GetBlock` stop at byte i, bit j: every block before byte
   * i is in use and j is the lowest clear bit of byte i, so what they do
   * is the first-fit allocation.
   */
  lemma FirstFitFound(m: seq<byte>, bytes: nat, i: nat, j: nat)
    requires i < bytes <= |m| && j < 8
    requires forall c :: 0 <= c < 8 * i ==> IsSet(m, c)
    requires m[i] & Bit(j) == 0
    requires forall k :: 0 <= k < j ==> m[i] & Bit(k) != 0
    ensures Allocate(m, bytes) == (m[i := m[i] | Bit(j)], 8 * i + j)
  {
    ClearBitOfByte(m, i, j);
    LowestClearIs(m, bytes, 8 * i + j);
    SetBitInByte(m, i, j);
  }

  /** k allocations in a row, as `Write` makes them each time a block fills: one, then k - 1 more from the map it leaves. */
  function AllocateN(m: seq<byte>, bytes: nat, k: nat): (r: Allocation)
    requires bytes <= |m|
    ensures |r.bits| == |m| && |r.blocks| == k
    ensures forall i :: 0 <= i < k ==> r.blocks[i] == 0 || r.blocks[i] < 8 * bytes
    decreases k
  {
    if k == 0 then Allocation(m, [])
    else
      var first := Allocate(m, bytes);
      var rest := AllocateN(first.0, bytes, k - 1);
      Allocation(rest.bits, [first.1] + rest.blocks)
  }

  /** None of the blocks is 0, the number `GetBlock` returns when the map is full. */
  ghost predicate AllHanded(blocks: seq<nat>)
  {
    forall i :: 0 <= i < |blocks| ==> blocks[i] != 0
  }

  /** No block appears twice. */
  ghost predicate Distinct(blocks: seq<nat>)
  {
    forall i, j :: 0 <= i < j < |blocks| ==> blocks[i] != blocks[j]
  }

  /** Every block is within the searched bytes and marked in use in bits. */
  ghost predicate MarkedInUse(bits: seq<byte>, bytes: nat, blocks: seq<nat>)
    requires bytes <= |bits|
  {
    forall i :: 0 <= i < |blocks| ==> blocks[i] < 8 * bytes && IsSet(bits, blocks[i])
  }

  /** Allocations that all succeed hand out distinct blocks, each left marked in use. */
  lemma {:induction false} AllocateNDistinct(m: seq<byte>, bytes: nat, k: nat)
    requires bytes <= |m|
    ensures AllHanded(AllocateN(m, bytes, k).blocks) ==>
      Distinct(AllocateN(m, bytes, k).blocks) && MarkedInUse(AllocateN(m, bytes, k).bits, bytes, AllocateN(m, bytes, k).blocks)
    decreases k
  {
    var r := AllocateN(m, bytes, k);
    if k > 0 && AllHanded(r.blocks) {
      var first := Allocate(m, bytes);
      var rest := AllocateN(first.0, bytes, k - 1);
      var b := first.1;
      assert r.blocks == [b] + rest.blocks && r.bits == rest.bits;
      assert b == r.blocks[0] && b != 0;
      assert AllHanded(rest.blocks) by {
        assert forall i :: 0 <= i < k - 1 ==> rest.blocks[i] == r.blocks[i + 1];
      }
      AllocateNDistinct(first.0, bytes, k - 1);
      AllocateNFresh(first.0, bytes, k - 1);
      AllocateTakes(m, bytes);
      AllocateNGrows(first.0, bytes, k - 1, b);
      ConsDistinct(b, rest.blocks, first.0, rest.bits, bytes);
    }
  }

  /** A block in use in m1 is none of the blocks free in m1, so it can join them. */
  lemma ConsDistinct(b: nat, rest: seq<nat>, m1: seq<byte>, bits: seq<byte>, bytes: nat)
    requires bytes <= |bits| && Distinct(rest) && MarkedInUse(bits, bytes, rest)
    requires b < 8 * bytes && IsSet(bits, b)
    requires b / 8 < |m1| && IsSet(m1, b) && FreshIn(m1, rest)
    ensures Distinct([b] + rest) && MarkedInUse(bits, bytes, [b] + rest)
  {
    var all := [b] + rest;
    forall i, j | 0 <= i < j < |all| ensures all[i] != all[j] {
      assert all[j] == rest[j - 1];
      if i > 0 {
        assert all[i] == rest[i - 1];
      }
    }
    forall i | 0 <= i < |all| ensures all[i] < 8 * bytes && IsSet(bits, all[i]) {
      if i > 0 {
        assert all[i] == rest[i - 1];
      }
    }
  }

  /** Every block is clear in bits: none was in use before the allocations. */
  ghost predicate FreshIn(bits: seq<byte>, blocks: seq<nat>)
  {
    forall i :: 0 <= i < |blocks| ==> blocks[i] / 8 < |bits| && !IsSet(bits, blocks[i])
  }

  /** Allocating never frees a block. */
  lemma {:induction false} AllocateNGrows(m: seq<byte>, bytes: nat, k: nat, c: nat)
    requires bytes <= |m| && c / 8 < |m| && IsSet(m, c)
    ensures IsSet(AllocateN(m, bytes, k).bits, c)
    decreases k
  {
    if k > 0 {
      var first := Allocate(m, bytes);
      AllocateKeeps(m, bytes, c);
      AllocateNGrows(first.0, bytes, k - 1, c);
    }
  }

  /** The blocks handed out by allocations that all succeed were free at the start. */
  lemma {:induction false} AllocateNFresh(m: seq<byte>, bytes: nat, k: nat)
    requires bytes <= |m|
    ensures AllHanded(AllocateN(m, bytes, k).blocks) ==> FreshIn(m, AllocateN(m, bytes, k).blocks)
    decreases k
  {
    var r := AllocateN(m, bytes, k);
    if k > 0 && AllHanded(r.blocks) {
      var first := Allocate(m, bytes);
      var rest := AllocateN(first.0, bytes, k - 1);
      assert r.blocks == [first.1] + rest.blocks;
      assert first.1 == r.blocks[0] && first.1 != 0;
      assert AllHanded(rest.blocks) by {
        assert forall i :: 0 <= i < k - 1 ==> rest.blocks[i] == r.blocks[i + 1];
      }
      AllocateNFresh(first.0, bytes, k - 1);
      AllocateTakes(m, bytes);
      forall i | 0 <= i < |r.blocks| ensures r.blocks[i] / 8 < |m| && !IsSet(m, r.blocks[i]) {
        if i > 0 {
          var c := rest.blocks[i - 1];
          assert r.blocks[i] == c && !IsSet(first.0, c);
          if IsSet(m, c) {
            AllocateKeeps(m, bytes, c);
          }
        }
      }
    }
  }

  /**
   * `DeleteFile`'s and `EraseFile`'s loop over a block list: every entry
   * that is not 0 is freed, in order.
   */
  function FreeAll(m: seq<byte>, bs: seq<int>): (r: seq<byte>)
    requires forall i :: 0 <= i < |bs| ==> bs[i] == 0 || (0 < bs[i] && bs[i] / 8 < |m|)
    ensures |r| == |m|
  {
    if bs == [] then m
    else
      var rest := FreeAll(m, bs[..|bs| - 1]);
      var last := bs[|bs| - 1];
      if last != 0 then ClearBit(rest, last) else rest
  }

  /** Afterwards a block is in use exactly when it was and is not in the list; block 0 is never freed. */
  lemma {:induction false} FreeAllMeaning(m: seq<byte>, bs: seq<int>, c: nat)
    requires forall i :: 0 <= i < |bs| ==> bs[i] == 0 || (0 < bs[i] && bs[i] / 8 < |m|)
    requires c / 8 < |m|
    ensures IsSet(FreeAll(m, bs), c) <==> IsSet(m, c) && (c == 0 || c !in bs)
  {
    if bs != [] {
      var init, last := bs[..|bs| - 1], bs[|bs| - 1];
      assert bs == init + [last];
      FreeAllMeaning(m, init, c);
      if last != 0 {
        ClearBitMeaning(FreeAll(m, init), last, c);
      }
    }
  }

  // ---------------------------------------------------------------------------
  // How many bytes a read delivers

  /**
   * The bytes `Read` copies, by the steps of its loop: starting at byte
   * offset o of the file, with t bytes wanted, it copies while the cursor
   * is not at end of file, and returns early once the cursor reaches the
   * offset where the block index would pass LAST_INDEX. `strict` selects
   * the end-of-file test: `o > size` as written, `o >= size` as intended.
   */
  function ReadSteps(o: nat, size: int, t: int, strict: bool): (r: nat)
    requires o < LAST_INDEX * BLOCK_SIZE
    ensures r <= LAST_INDEX * BLOCK_SIZE - o
    ensures r == 0 || r <= t
    decreases LAST_INDEX * BLOCK_SIZE - o
  {
    if (if strict then o > size else o >= size) || t <= 0 then 0
    else if o + 1 == LAST_INDEX * BLOCK_SIZE then 1
    else 1 + ReadSteps(o + 1, size, t - 1, strict)
  }

  /** One byte more of a read that is not at end of file: the count from o is one plus the count from o + 1. */
  lemma ReadStepsNext(o: nat, size: int, t: int, strict: bool)
    requires o < LAST_INDEX * BLOCK_SIZE && t > 0
    requires !(if strict then o > size else o >= size)
    ensures o + 1 == LAST_INDEX * BLOCK_SIZE ==> ReadSteps(o, size, t, strict) == 1
    ensures o + 1 < LAST_INDEX * BLOCK_SIZE ==> ReadSteps(o, size, t, strict) == 1 + ReadSteps(o + 1, size, t - 1, strict)
  {
  }

  function Min(a: int, b: int): int
  {
    if a <= b then a else b
  }

  /**
   * The intended read delivers the bytes that are there: as many as wanted,
   * as the file still holds, and as the last readable block allows.
   */
  lemma {:induction false} ReadStepsCount(o: nat, size: int, t: int)
    requires o < LAST_INDEX * BLOCK_SIZE
    ensures ReadSteps(o, size, t, false) == if o >= size || t <= 0 then 0 else Min(Min(t, size - o), LAST_INDEX * BLOCK_SIZE - o)
    decreases LAST_INDEX * BLOCK_SIZE - o
  {
    if o < size && t > 0 && o + 1 < LAST_INDEX * BLOCK_SIZE {
      ReadStepsCount(o + 1, size, t - 1);
    }
  }

  /**
   * As written, the end-of-file test is strict, so a read of a file of
   * `size` bytes from its start, asking for more, delivers size + 1 bytes:
   * the byte after the last one written comes along.
   */
  lemma {:induction false} ReadsPastEnd(o: nat, size: nat, t: int)
    requires o <= size < LAST_INDEX * BLOCK_SIZE - 1 && t > size - o
    ensures ReadSteps(o, size, t, true) == size - o + 1
    ensures ReadSteps(o, size, t, false) == size - o
    decreases size - o
  {
    if o < size {
      ReadsPastEnd(o + 1, size, t - 1);
    }
  }
}
