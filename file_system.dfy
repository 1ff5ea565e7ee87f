/**
 * The flat file system (`FileSystem`) and its sequential files (`File`).
 * The disk holds 512-byte blocks; the node table that `Format` places in
 * the first `m_blocks` blocks is kept as a sequence of node records, the
 * n-th record being node n % NODES_PER_BLOCK of metadata block
 * n / NODES_PER_BLOCK, so every scan over the table visits the records in
 * the order the nested loops of the source do.
 */
module FileSystems {
  import opened Common
  import opened BlockMaps
  import opened FileNodes
  import opened FileData

  /** The disk: the contents of its blocks, and the node records its metadata blocks hold. */
  class SimpleDisk {
    var blocks: seq<seq<byte>>
    var table: seq<MNode>
  }

  class FileSystem {
    var disk: SimpleDisk?
    var size: int
    var numBlocks: nat
    var mNodes: nat
    var mBlocks: nat
    /** The free-block map: bit b % 8 of byte b / 8 is set when block b is in use. */
    const blockMap: array<byte>
    /** `sizeof(m_node)`, and the `NODES_PER_BLOCK` records a metadata block holds. */
    const nodeBytes: nat
    const nodesPerBlock: nat

    /** The node records the scans visit: `m_blocks` blocks of NODES_PER_BLOCK each. */
    function Slots(): nat
      reads this
    {
      mBlocks * nodesPerBlock
    }

    /** The bytes of the map that `GetBlock` searches. */
    function MapBytes(): nat
      reads this
    {
      numBlocks / 8
    }

    /** A block list entry: 0 for none, or a block the map covers. */
    ghost predicate BlockOk(e: int)
      reads this
    {
      e == 0 || 0 < e < 8 * MapBytes()
    }

    ghost predicate NodeOk(n: MNode)
      reads this
    {
      NodeWithin(n, 8 * MapBytes())
    }

    /** Every entry of the node's block list is 0 or below bound. */
    static ghost predicate NodeWithin(n: MNode, bound: nat)
    {
      |n.block| == BLOCK_LIMIT && forall k :: 0 <= k < BLOCK_LIMIT ==> n.block[k] == 0 || 0 < n.block[k] < bound
    }

    /** The first count nodes of the table are within bound. */
    static ghost predicate TableWithin(t: seq<MNode>, count: nat, bound: nat)
      requires count <= |t|
    {
      forall s :: 0 <= s < count ==> NodeWithin(t[s], bound)
    }

    /** The node table, empty when there is no disk. */
    ghost function Table(): seq<MNode>
      reads this, disk
    {
      if disk == null then [] else disk.table
    }

    /** The disk's blocks, none when there is no disk. */
    ghost function Data(): seq<seq<byte>>
      reads this, disk
    {
      if disk == null then [] else disk.blocks
    }

    /**
     * The layout fits the map and the disk, the table holds the scanned
     * records, each with a block list of in-range entries, and no two
     * records carry the same file id.
     */
    ghost predicate Valid()
      reads this, disk
    {
      && 0 < nodeBytes <= BLOCK_SIZE / 2 && nodesPerBlock == BLOCK_SIZE / nodeBytes
      && MapBytes() <= blockMap.Length
      && (disk == null ==> numBlocks == 0 && mBlocks == 0)
      && (mBlocks == 0 || numBlocks >= 1)
      && (disk != null ==>
            && Blocks(disk.blocks, numBlocks)
            && Slots() <= |disk.table|
            && UniqueIds(disk.table, Slots())
            && TableWithin(disk.table, Slots(), 8 * MapBytes()))
    }

    /** The first record of file fd, as every scan finds it. */
    ghost function Slot(fd: int): (r: Option<nat>)
      requires Valid()
      reads this, disk
      ensures r.Some? ==> r.value < Slots() && disk != null
    {
      if disk == null then None else FirstNode(disk.table, Slots(), fd)
    }

    /**
     * The constructor: no disk and an empty layout. The size of the map
     * array and of a node record are fixed by the header, which is not
     * part of this model, so they are parameters.
     */
    constructor (mapBytes: nat, nodeSize: nat)
      requires 0 < nodeSize <= BLOCK_SIZE / 2
      ensures Valid() && fresh(blockMap) && blockMap.Length == mapBytes && nodeBytes == nodeSize
      ensures disk == null && size == 0 && numBlocks == 0 && mNodes == 0 && mBlocks == 0
    {
      disk := null;
      numBlocks := 0;
      mBlocks := 0;
      mNodes := 0;
      size := 0;
      blockMap := new byte[mapBytes];
      nodeBytes := nodeSize;
      nodesPerBlock := BLOCK_SIZE / nodeSize;
    }

    /** `Mount`: take the disk only if there is none yet; always succeeds. */
    method Mount(d: SimpleDisk?) returns (ok: bool)
      requires Valid()
      modifies this`disk
      ensures Valid() && ok
      ensures disk == if old(disk) == null then d else old(disk)
    {
      if disk == null {
        disk := d;
        return true;
      }
      return true;
    }

    /**
     * `Format`: compute the layout, clear the bytes of the map that
     * `GetBlock` searches, reserve the node-table blocks, and write zeros
     * over every block of the file system, the node table among them.
     */
    method Format(d: SimpleDisk, sz: u32) returns (ok: bool)
      requires Valid()
      requires FormatLayout(sz, nodeBytes).numBlocks / 8 <= blockMap.Length
      requires FormatLayout(sz, nodeBytes).mBlocks / 8 < blockMap.Length
      requires FormatLayout(sz, nodeBytes).numBlocks <= |d.blocks|
      modifies this, blockMap, d
      ensures Valid() && ok && disk == d && size == sz
      ensures Layout(numBlocks, mNodes, mBlocks) == FormatLayout(sz, nodeBytes)
      ensures forall j :: 0 <= j < blockMap.Length ==>
        blockMap[j] == if j <= mBlocks / 8 || j < MapBytes() then FormatByte(j, mBlocks) else old(blockMap[j])
      ensures forall b :: 0 <= b < 8 * MapBytes() ==> (IsSet(blockMap[..], b) <==> b < mBlocks)
      ensures |d.blocks| == old(|d.blocks|)
      ensures forall j :: 0 <= j < |d.blocks| ==> d.blocks[j] == if j < numBlocks then ZeroBlock() else old(d.blocks[j])
      ensures d.table == seq(Slots(), _ => EmptyNode())
    {
      PlaceLayout(d, sz);
      FormatMap();
      FormatDisk(d);
      return true;
    }

    /**
     * `Format` as file_system.C:51-79 writes it: the same layout and disk
     * writes, with the map built by FormatMapAsWritten. With fewer than
     * eight node-table blocks every searched block is left free.
     */
    method FormatAsWritten(d: SimpleDisk, sz: u32) returns (ok: bool)
      requires Valid()
      requires FormatLayout(sz, nodeBytes).numBlocks / 8 <= blockMap.Length
      requires FormatLayout(sz, nodeBytes).mBlocks / 8 < blockMap.Length
      requires FormatLayout(sz, nodeBytes).numBlocks <= |d.blocks|
      modifies this, blockMap, d
      ensures Valid() && ok && disk == d && size == sz
      ensures Layout(numBlocks, mNodes, mBlocks) == FormatLayout(sz, nodeBytes)
      ensures forall j :: 0 <= j < blockMap.Length ==>
        blockMap[j] == if j <= mBlocks / 8 || j < MapBytes() then FormatByteAsWritten(j, mBlocks) else old(blockMap[j])
      ensures mBlocks < 8 ==> forall b :: 0 <= b < 8 * MapBytes() ==> !IsSet(blockMap[..], b)
      ensures |d.blocks| == old(|d.blocks|)
      ensures forall j :: 0 <= j < |d.blocks| ==> d.blocks[j] == if j < numBlocks then ZeroBlock() else old(d.blocks[j])
      ensures d.table == seq(Slots(), _ => EmptyNode())
    {
      PlaceLayout(d, sz);
      FormatMapAsWritten();
      FormatDisk(d);
      return true;
    }

    /** The layout computation of `Format`, on the disk d. */
    method PlaceLayout(d: SimpleDisk, sz: u32)
      requires 0 < nodeBytes <= BLOCK_SIZE / 2
      modifies this
      ensures disk == d && size == sz
      ensures Layout(numBlocks, mNodes, mBlocks) == FormatLayout(sz, nodeBytes)
      ensures 1 <= mBlocks <= numBlocks
    {
      disk := d;
      size := sz;
      numBlocks := size / BLOCK_SIZE + 1;
      mNodes := numBlocks / BLOCK_LIMIT + 1;
      mBlocks := (mNodes * nodeBytes) / BLOCK_SIZE + 1;
      assert Layout(numBlocks, mNodes, mBlocks) == FormatLayout(sz, nodeBytes);
      LayoutFits(sz, nodeBytes);
    }

    /**
     * The disk part of `Format`: zeros over the file system's blocks, which
     * leaves every node record of the table free.
     */
    method FormatDisk(d: SimpleDisk)
      requires disk == d && 0 < nodeBytes <= BLOCK_SIZE / 2 && nodesPerBlock == BLOCK_SIZE / nodeBytes
      requires MapBytes() <= blockMap.Length && 1 <= mBlocks <= numBlocks <= |d.blocks|
      modifies d
      ensures Valid()
      ensures |d.blocks| == old(|d.blocks|)
      ensures forall j :: 0 <= j < |d.blocks| ==> d.blocks[j] == if j < numBlocks then ZeroBlock() else old(d.blocks[j])
      ensures d.table == seq(Slots(), _ => EmptyNode())
    {
      ZeroBlocks(d, numBlocks);
      // The node table occupies blocks 0 to m_blocks - 1, all of them zeroed above.
      d.table := seq(Slots(), _ => EmptyNode());
    }

    /**
     * The map part of `Format`: clear the bytes `GetBlock` searches, fill
     * the bytes that the node-table blocks cover entirely, and reserve the
     * rest of them bit by bit in the byte after.
     */
    method FormatMap()
      requires MapBytes() <= blockMap.Length && mBlocks / 8 < blockMap.Length && mBlocks <= numBlocks
      modifies blockMap
      ensures forall j :: 0 <= j < blockMap.Length ==>
        blockMap[j] == if j <= mBlocks / 8 || j < MapBytes() then FormatByte(j, mBlocks) else old(blockMap[j])
      ensures forall b :: 0 <= b < 8 * MapBytes() ==> (IsSet(blockMap[..], b) <==> b < mBlocks)
    {
      var i := FillMap();
      blockMap[i] := 0;
      var j := 0;
      while j < mBlocks % 8
        invariant 0 <= j <= mBlocks % 8
        invariant blockMap[i] == ReserveByte(j)
        invariant forall k :: 0 <= k < blockMap.Length && k != i ==>
          blockMap[k] == if k < i then 0xFF else if k < MapBytes() then 0 else old(blockMap[k])
      {
        blockMap[i] := blockMap[i] | Bit(j);
        j := j + 1;
      }
      FormattedMap(blockMap[..], MapBytes(), mBlocks);
    }

    /**
     * The map part of `Format` as file_system.C:68-71 writes it: the
     * partial byte i is or-ed with `i << j` rather than `1 << j`. With
     * fewer than eight node-table blocks no block is marked in use.
     */
    method FormatMapAsWritten()
      requires MapBytes() <= blockMap.Length && mBlocks / 8 < blockMap.Length && mBlocks <= numBlocks
      modifies blockMap
      ensures forall j :: 0 <= j < blockMap.Length ==>
        blockMap[j] == if j <= mBlocks / 8 || j < MapBytes() then FormatByteAsWritten(j, mBlocks) else old(blockMap[j])
      ensures mBlocks < 8 ==> forall b :: 0 <= b < 8 * MapBytes() ==> !IsSet(blockMap[..], b)
    {
      var i := FillMap();
      blockMap[i] := 0;
      var j := 0;
      while j < mBlocks % 8
        invariant 0 <= j <= mBlocks % 8
        invariant blockMap[i] == ReserveByteAsWritten(i, j)
        invariant forall k :: 0 <= k < blockMap.Length && k != i ==>
          blockMap[k] == if k < i then 0xFF else if k < MapBytes() then 0 else old(blockMap[k])
      {
        blockMap[i] := blockMap[i] | (((i * Pow2(j)) % 256) as byte);
        j := j + 1;
      }
      if mBlocks < 8 {
        AsWrittenMapClear(blockMap[..], MapBytes(), mBlocks);
      }
    }

    /**
     * The first two loops of `Format`: the searched bytes become 0, then
     * the bytes the node table covers entirely become 0xFF; i is the index
     * of the partial byte after them.
     */
    method FillMap() returns (i: nat)
      requires MapBytes() <= blockMap.Length && mBlocks / 8 < blockMap.Length && mBlocks <= numBlocks
      modifies blockMap
      ensures i == mBlocks / 8
      ensures forall k :: 0 <= k < blockMap.Length ==>
        blockMap[k] == if k < i then 0xFF else if k < MapBytes() then 0 else old(blockMap[k])
    {
      var j := 0;
      while j < numBlocks / 8
        invariant 0 <= j <= numBlocks / 8
        invariant forall k :: 0 <= k < blockMap.Length ==> blockMap[k] == if k < j then 0 else old(blockMap[k])
      {
        blockMap[j] := 0;
        j := j + 1;
      }

      i := 0;
      while i < mBlocks / 8
        invariant 0 <= i <= mBlocks / 8
        invariant forall k :: 0 <= k < blockMap.Length ==>
          blockMap[k] == if k < i then 0xFF else if k < MapBytes() then 0 else old(blockMap[k])
      {
        blockMap[i] := 0xFF;
        i := i + 1;
      }
    }

    /** The disk part of `Format`: a block of zeros written over blocks 0 to count - 1. */
    method ZeroBlocks(d: SimpleDisk, count: nat)
      requires count <= |d.blocks|
      modifies d`blocks
      ensures |d.blocks| == old(|d.blocks|)
      ensures forall j :: 0 <= j < |d.blocks| ==> d.blocks[j] == if j < count then ZeroBlock() else old(d.blocks[j])
    {
      var j := 0;
      while j < count
        invariant 0 <= j <= count
        invariant |d.blocks| == old(|d.blocks|)
        invariant forall k :: 0 <= k < |d.blocks| ==> d.blocks[k] == if k < j then ZeroBlock() else old(d.blocks[k])
      {
        d.blocks := d.blocks[j := ZeroBlock()];
        j := j + 1;
      }
    }

    /** `disk->write(j, buf)`: block j of the disk takes the contents of buf. */
    method WriteBlock(j: nat, buf: seq<byte>)
      requires Valid() && disk != null && j < numBlocks && |buf| == BLOCK_SIZE
      modifies disk`blocks
      ensures Valid() && Data() == old(Data())[j := buf] && Table() == old(Table())
    {
      disk.blocks := disk.blocks[j := buf];
    }

    /** The scan for the first record of fd that every table operation makes. */
    method Find(fd: int) returns (k: int)
      requires Valid()
      ensures Slot(fd).None? ==> k == -1
      ensures Slot(fd).Some? ==> k == Slot(fd).value
    {
      k := 0;
      while k < Slots()
        invariant 0 <= k <= Slots()
        invariant disk != null ==> FirstNode(disk.table, Slots(), fd) == FirstFrom(disk.table, Slots(), fd, k)
      {
        if disk.table[k].fd == fd {
          return k;
        }
        k := k + 1;
      }
      return -1;
    }

    /**
     * `LookupFile`: a new file opened on the first record of fd, at the
     * start of its first block, or null when no record carries fd.
     */
    method LookupFile(fd: int) returns (file: File?)
      requires Valid()
      ensures (file == null) == Slot(fd).None?
      ensures file != null ==>
        && fresh(file) && fresh(file.blocks)
        && var n := Table()[Slot(fd).value];
        && file.fd == fd && file.size == n.size && file.currBlock == n.block[0]
        && file.index == 1 && file.pos == 0 && file.blocks[..] == n.block && file.fileSystem == this
      ensures file != null ==> file.Attached()
    {
      var k := Find(fd);
      if k < 0 {
        return null;
      }
      var n := disk.table[k];
      assert NodeOk(n) && 8 * MapBytes() <= numBlocks;
      file := OpenOn(fd, n);
      assert forall k :: 0 <= k < BLOCK_LIMIT ==> 0 <= file.blocks[k] < numBlocks by {
        forall k | 0 <= k < BLOCK_LIMIT ensures 0 <= file.blocks[k] < numBlocks {
          assert file.blocks[k] == file.blocks[..][k] == n.block[k];
        }
      }
    }

    /** The new `File` of `LookupFile`, on node n of fd, at the start of its first block. */
    method OpenOn(fd: int, n: MNode) returns (file: File)
      requires |n.block| == BLOCK_LIMIT
      ensures fresh(file) && fresh(file.blocks)
      ensures file.fd == fd && file.size == n.size && file.currBlock == n.block[0]
      ensures file.index == 1 && file.pos == 0 && file.blocks[..] == n.block && file.fileSystem == this
    {
      file := new File();
      file.fd := fd;
      file.size := n.size;
      file.currBlock := n.block[0];
      file.index := 1;
      file.pos := 0;
      CopyList(file.blocks, n.block);
      file.fileSystem := this;
    }

    /** The copy loop of `LookupFile`: the node's block list into the file's. */
    static method CopyList(a: array<int>, list: seq<int>)
      requires a.Length == |list|
      modifies a
      ensures a[..] == list
    {
      var i := 0;
      while i < a.Length
        invariant 0 <= i <= a.Length
        invariant a[..i] == list[..i]
      {
        a[i] := list[i];
        i := i + 1;
      }
    }

    /**
     * `CreateFile`: refused when fd is already present; otherwise the first
     * free record takes fd and a block from `GetBlock`; refused when no
     * record is free.
     */
    method CreateFile(fd: int) returns (ok: bool)
      requires Valid()
      modifies disk, blockMap
      ensures Valid() && Data() == old(Data())
      ensures old(Slot(fd)).Some? || old(Slot(0)).None? ==>
        !ok && Table() == old(Table()) && blockMap[..] == old(blockMap[..])
      ensures old(Slot(fd)).None? && old(Slot(0)).Some? ==>
        && ok
        && var k := old(Slot(0)).value;
        && var (m, b) := Allocate(old(blockMap[..]), MapBytes());
        && blockMap[..] == m
        && Table() == old(Table())[k := Created(old(Table())[k], fd, b)]
      ensures ok ==> Slot(fd) == old(Slot(0))
    {
      var present := Find(fd);
      if present >= 0 {
        return false;
      }
      var k := Find(0);
      if k < 0 {
        return false;
      }
      var b := GetBlock();
      TakeKeepsUnique(disk.table, Slots(), fd, k, Created(disk.table[k], fd, b));
      SetNode(k, Created(disk.table[k], fd, b));
      return true;
    }

    /**
     * `CreateFile` as file_system.C:114-140 writes it: the same scans and
     * allocation, but the new record gets `b_size` 1, so its next block
     * goes to slot 2 (FileNodes.SecondSlotSkipped).
     */
    method CreateFileAsWritten(fd: int) returns (ok: bool)
      requires Valid()
      modifies disk, blockMap
      ensures Valid() && Data() == old(Data())
      ensures old(Slot(fd)).Some? || old(Slot(0)).None? ==>
        !ok && Table() == old(Table()) && blockMap[..] == old(blockMap[..])
      ensures old(Slot(fd)).None? && old(Slot(0)).Some? ==>
        && ok
        && var k := old(Slot(0)).value;
        && var (m, b) := Allocate(old(blockMap[..]), MapBytes());
        && blockMap[..] == m
        && Table() == old(Table())[k := CreatedAsWritten(old(Table())[k], fd, b)]
      ensures ok ==> Slot(fd) == old(Slot(0))
    {
      var present := Find(fd);
      if present >= 0 {
        return false;
      }
      var k := Find(0);
      if k < 0 {
        return false;
      }
      var b := GetBlock();
      TakeKeepsUnique(disk.table, Slots(), fd, k, CreatedAsWritten(disk.table[k], fd, b));
      SetNode(k, CreatedAsWritten(disk.table[k], fd, b));
      return true;
    }

    /**
     * `DeleteFile`: the first record of fd is cleared and the blocks of
     * its list are freed; refused when fd is absent.
     */
    method DeleteFile(fd: int) returns (ok: bool)
      requires Valid()
      modifies disk, blockMap
      ensures Valid() && Data() == old(Data())
      ensures old(Slot(fd)).None? ==> !ok && Table() == old(Table()) && blockMap[..] == old(blockMap[..])
      ensures old(Slot(fd)).Some? ==>
        && ok
        && var k := old(Slot(fd)).value;
        && Table() == old(Table())[k := EmptyNode()]
        && blockMap[..] == FreeAll(old(blockMap[..]), old(Table())[k].block)
      ensures fd != 0 ==> Slot(fd).None?
    {
      var k := Find(fd);
      if k < 0 {
        return false;
      }
      var n := disk.table[k];
      FreeList(n.block);
      if fd != 0 {
        FreeKeepsUnique(disk.table, Slots(), fd, k);
      } else {
        SameIdsKeepUnique(disk.table, Slots(), k, EmptyNode());
      }
      SetNode(k, EmptyNode());
      return true;
    }

    /**
     * What `EraseFile` of fd leaves, starting from table t0, disk d0 and
     * map m0: nothing changes when fd is absent; otherwise the record keeps
     * its id and first block, every block of its list is zeroed on the
     * disk, and all but the first are freed.
     */
    ghost predicate ErasedFrom(fd: int, t0: seq<MNode>, d0: seq<seq<byte>>, m0: seq<byte>)
      reads this, disk, blockMap
    {
      Slots() <= |t0| &&
      match FirstNode(t0, Slots(), fd)
      case None => Table() == t0 && Data() == d0 && blockMap[..] == m0
      case Some(k) =>
        var n := t0[k];
        && |n.block| == BLOCK_LIMIT
        && (forall i :: 0 <= i < BLOCK_LIMIT ==> n.block[i] == 0 || (0 < n.block[i] && n.block[i] / 8 < |m0|))
        && Table() == t0[k := Erased(n)]
        && blockMap[..] == FreeAll(m0, n.block[1..])
        && |Data()| == |d0|
        && forall j :: 0 <= j < |d0| ==> Data()[j] == if j != 0 && j in n.block then ZeroBlock() else d0[j]
    }

    /** `EraseFile`: empty the first file of fd, keeping its record and first block. */
    method EraseFile(fd: int)
      requires Valid()
      modifies disk, blockMap
      ensures Valid()
      ensures ErasedFrom(fd, old(Table()), old(Data()), old(blockMap[..]))
    {
      var k := Find(fd);
      if k < 0 {
        return;
      }
      var n := disk.table[k];
      EraseBlocks(disk, n.block);
      SameIdsKeepUnique(disk.table, Slots(), k, Erased(n));
      SetNode(k, Erased(n));
    }

    /** The write of record k of the node table to the disk, keeping the table well formed. */
    method SetNode(k: nat, n: MNode)
      requires Valid() && disk != null && k < Slots() && NodeOk(n) && UniqueIds(disk.table[k := n], Slots())
      modifies disk`table
      ensures Valid() && Table() == old(Table())[k := n] && Data() == old(Data())
    {
      disk.table := disk.table[k := n];
    }

    /** The loop of `DeleteFile`: every entry of bs that is not 0 is freed, in order. */
    method FreeList(bs: seq<int>)
      requires forall i :: 0 <= i < |bs| ==> bs[i] == 0 || (0 < bs[i] && bs[i] / 8 < blockMap.Length)
      modifies blockMap
      ensures blockMap[..] == FreeAll(old(blockMap[..]), bs)
    {
      var i := 0;
      while i < |bs|
        invariant 0 <= i <= |bs|
        invariant blockMap[..] == FreeAll(old(blockMap[..]), bs[..i])
      {
        assert bs[..i + 1][..i] == bs[..i];
        if bs[i] != 0 {
          FreeBlock(bs[i]);
        }
        i := i + 1;
      }
      assert bs[..|bs|] == bs;
    }

    /**
     * The loop of `EraseFile`: a block of zeros is written over every entry
     * of bs that is not 0, and each such entry after the first is freed.
     */
    method EraseBlocks(d: SimpleDisk, bs: seq<int>)
      requires |bs| == BLOCK_LIMIT
      requires forall i :: 0 <= i < |bs| ==> bs[i] == 0 || (0 < bs[i] && bs[i] / 8 < blockMap.Length && bs[i] < |d.blocks|)
      modifies d`blocks, blockMap
      ensures |d.blocks| == old(|d.blocks|)
      ensures forall j :: 0 <= j < |d.blocks| ==> d.blocks[j] == if j != 0 && j in bs then ZeroBlock() else old(d.blocks[j])
      ensures blockMap[..] == FreeAll(old(blockMap[..]), bs[1..])
    {
      ghost var D0, M0 := d.blocks, blockMap[..];
      var i := 0;
      while i < |bs|
        invariant 0 <= i <= |bs|
        invariant Erasing(d, bs, i, D0, M0)
      {
        EraseEntry(d, bs, i, D0, M0);
        i := i + 1;
      }
      assert bs[..|bs|] == bs;
    }

    /** The loop of `EraseFile` has handled bs[..i]: those blocks are zeroed, and those after the first are freed. */
    ghost predicate Erasing(d: SimpleDisk, bs: seq<int>, i: nat, D0: seq<seq<byte>>, M0: seq<byte>)
      reads this, d, blockMap
    {
      i <= |bs| && Zeroed(d, bs, i, D0) && Freed(bs, i, M0)
    }

    /** Every block of bs[..i] other than 0 holds zeros, and every other block is as it was. */
    static ghost predicate Zeroed(d: SimpleDisk, bs: seq<int>, i: nat, D0: seq<seq<byte>>)
      requires i <= |bs|
      reads d
    {
      && |d.blocks| == |D0|
      && forall j :: 0 <= j < |D0| ==> d.blocks[j] == if j != 0 && j in bs[..i] then ZeroBlock() else D0[j]
    }

    /** The map is M0 with the blocks of bs[1..i] freed. */
    ghost predicate Freed(bs: seq<int>, i: nat, M0: seq<byte>)
      requires i <= |bs|
      reads this, blockMap
    {
      && |M0| == blockMap.Length
      && (forall j :: 0 <= j < |bs| ==> bs[j] == 0 || (0 < bs[j] && bs[j] / 8 < |M0|))
      && blockMap[..] == FreeAll(M0, if i == 0 then [] else bs[1..i])
    }

    /** One pass of the loop of `EraseFile`: entry bs[i]. */
    method EraseEntry(d: SimpleDisk, bs: seq<int>, i: nat, ghost D0: seq<seq<byte>>, ghost M0: seq<byte>)
      requires i < |bs| && (bs[i] == 0 || (0 < bs[i] && bs[i] / 8 < blockMap.Length && bs[i] < |d.blocks|))
      requires Erasing(d, bs, i, D0, M0)
      modifies d`blocks, blockMap
      ensures Erasing(d, bs, i + 1, D0, M0)
    {
      ZeroEntry(d, bs, i, D0);
      FreeEntry(bs, i, M0);
    }

    /** The write of zeros over block bs[i], when it is not 0. */
    static method ZeroEntry(d: SimpleDisk, bs: seq<int>, i: nat, ghost D0: seq<seq<byte>>)
      requires i < |bs| && (bs[i] == 0 || (0 < bs[i] && bs[i] < |d.blocks|))
      requires Zeroed(d, bs, i, D0)
      modifies d`blocks
      ensures Zeroed(d, bs, i + 1, D0)
    {
      assert bs[..i + 1] == bs[..i] + [bs[i]];
      if bs[i] != 0 {
        d.blocks := d.blocks[bs[i] := ZeroBlock()];
      }
    }

    /** The release of block bs[i], when it is neither 0 nor the first entry. */
    method FreeEntry(bs: seq<int>, i: nat, ghost M0: seq<byte>)
      requires i < |bs| && Freed(bs, i, M0)
      modifies blockMap
      ensures Freed(bs, i + 1, M0)
    {
      if i > 0 {
        assert bs[1..i + 1][..i - 1] == bs[1..i];
      }
      if bs[i] != 0 && i != 0 {
        FreeBlock(bs[i]);
      }
    }

    /**
     * `GetBlock`: the first-fit search over the map, byte by byte and bit by
     * bit; it marks the block it returns, or returns 0 on a full map.
     */
    method GetBlock() returns (b: nat)
      requires MapBytes() <= blockMap.Length
      modifies blockMap
      ensures (blockMap[..], b) == Allocate(old(blockMap[..]), MapBytes())
      ensures BlockOk(b)
    {
      ghost var m0 := blockMap[..];
      var i := 0;
      while i < numBlocks / 8
        invariant 0 <= i <= MapBytes()
        invariant blockMap[..] == m0
        invariant forall c :: 0 <= c < 8 * i ==> IsSet(m0, c)
      {
        if blockMap[i] != 0xFF {
          var j := FirstClearBit(blockMap[i]);
          FirstFitFound(m0, MapBytes(), i, j);
          blockMap[i] := blockMap[i] | Bit(j);
          assert blockMap[..] == m0[i := m0[i] | Bit(j)];
          return j + i * 8;
        }
        FullByte(m0, i);
        i := i + 1;
      }
      AllocateFull(m0, MapBytes());
      return 0;
    }

    /** The inner loop of `GetBlock`: the lowest clear bit of a byte that is not full. */
    static method FirstClearBit(x: byte) returns (j: nat)
      requires x != 0xFF
      ensures j < 8 && x & Bit(j) == 0
      ensures forall k :: 0 <= k < j ==> x & Bit(k) != 0
    {
      j := 0;
      while x & Bit(j) != 0
        invariant 0 <= j <= LowestClearBit(x, 0) < 8
        invariant forall k :: 0 <= k < j ==> x & Bit(k) != 0
        decreases 8 - j
      {
        j := j + 1;
      }
    }

    /** `FreeBlock`: clear the bit of block b, by setting it and then flipping it. */
    method FreeBlock(b: nat)
      requires b / 8 < blockMap.Length
      modifies blockMap
      ensures blockMap[..] == ClearBit(old(blockMap[..]), b)
    {
      var node := b / 8;
      var index := b % 8;
      blockMap[node] := blockMap[node] | Bit(index);
      blockMap[node] := blockMap[node] ^ Bit(index);
    }

    /** `UpdateSize`: the first record of fd grows by delta, and the file takes the new size. */
    method UpdateSize(delta: int, fd: int, file: File)
      requires Valid()
      modifies disk, file`size
      ensures Valid() && Data() == old(Data())
      ensures old(Slot(fd)).None? ==> Table() == old(Table()) && file.size == old(file.size)
      ensures old(Slot(fd)).Some? ==>
        var k := old(Slot(fd)).value;
        && Table() == old(Table())[k := old(Table())[k].(size := old(Table())[k].size + delta)]
        && file.size == Table()[k].size
    {
      var k := Find(fd);
      if k < 0 {
        return;
      }
      var n := disk.table[k].(size := disk.table[k].size + delta);
      SameIdsKeepUnique(disk.table, Slots(), k, n);
      SetNode(k, n);
      file.size := disk.table[k].size;
    }

    /**
     * `UpdateBlockData`: the first record of fd records block b after its
     * last block. The slot it writes must exist, which the source does not
     * check.
     */
    method UpdateBlockData(fd: int, b: int)
      requires Valid() && BlockOk(b)
      requires Slot(fd).Some? ==> 0 <= Table()[Slot(fd).value].bSize && Table()[Slot(fd).value].bSize + 1 < BLOCK_LIMIT
      modifies disk
      ensures Valid() && Data() == old(Data())
      ensures old(Slot(fd)).None? ==> Table() == old(Table())
      ensures old(Slot(fd)).Some? ==>
        var k := old(Slot(fd)).value;
        Table() == old(Table())[k := WithBlock(old(Table())[k], b)]
      ensures Slot(fd) == old(Slot(fd))
    {
      var k := Find(fd);
      if k < 0 {
        return;
      }
      var n := WithBlock(disk.table[k], b);
      SameIdsKeepUnique(disk.table, Slots(), k, n);
      SetNode(k, n);
    }
  }

  /**
   * The bytes a request for n bytes asks for: `int to_read = _n`, nothing
   * when that is not positive. A request below 2^31 is taken as it is; one
   * with the top bit set becomes negative and asks for nothing.
   */
  function Wanted(n: u32): (w: nat)
    ensures w <= n && w < 0x8000_0000
    ensures n < 0x8000_0000 ==> w == n
    ensures n >= 0x8000_0000 ==> w == 0
  {
    if AsInt32(n) > 0 then AsInt32(n) else 0
  }

  class File {
    var fd: int
    var size: int
    var currBlock: int
    /** The cursor: block `index - 1` of the list, byte `pos` of it. */
    var index: int
    var pos: int
    const blocks: array<int>
    var fileSystem: FileSystem?

    /** `File()`: no id, no block, the cursor before the first byte, and no file system. */
    constructor ()
      ensures fd == -1 && size == 0 && currBlock == -1 && index == 1 && pos == 0 && fileSystem == null
      ensures fresh(blocks) && blocks.Length == BLOCK_LIMIT
    {
      fd := -1;
      size := 0;
      currBlock := -1;
      index := 1;
      pos := 0;
      fileSystem := null;
      blocks := new int[BLOCK_LIMIT](_ => 0);
    }

    /** The byte offset of the cursor in the file. */
    function Offset(): int
      reads this
    {
      (index - 1) * BLOCK_SIZE + pos
    }

    /** `EoF` as file.C:131-134 writes it: the cursor is past the size, by a strict comparison. */
    predicate EoFAsWritten()
      reads this
    {
      Offset() > size
    }

    /** `EoF` as intended: the cursor has reached the size, so there is no byte left to read. */
    predicate EoF()
      reads this
    {
      Offset() >= size
    }

    /** The two tests differ exactly when the cursor is on the offset just past the last byte. */
    lemma EoFDiffers()
      ensures EoF() && !EoFAsWritten() <==> Offset() == size
      ensures EoFAsWritten() ==> EoF()
    {
    }

    /** The end-of-file test: as file.C:131-134 writes it when strict, as intended otherwise. */
    predicate EndOfFile(strict: bool)
      reads this
    {
      if strict then EoFAsWritten() else EoF()
    }

    /** `curr_block` and `file_system` are set, which is what `Read` and `Write` test first. */
    predicate Initialised()
      reads this
    {
      currBlock != -1 && fileSystem != null
    }

    /** The file is open on fs, formatted, and its current block is on the disk. */
    ghost predicate OnDisk(fs: FileSystem)
      reads this, fs, fs.disk
    {
      fileSystem == fs && fs.Valid() && fs.disk != null && 0 <= currBlock < fs.numBlocks
    }

    /**
     * The file is open on a formatted file system whose disk holds its
     * current block and every block of its list.
     */

    ghost predicate Attached()
      reads this, blocks, fileSystem, if fileSystem == null then {} else {fileSystem.disk}
    {
      && fileSystem != null && fileSystem.Valid() && fileSystem.disk != null
      && blocks.Length == BLOCK_LIMIT && blocks as object != fileSystem.blockMap as object
      && 0 <= currBlock < fileSystem.numBlocks
      && forall k :: 0 <= k < BLOCK_LIMIT ==> 0 <= blocks[k] < fileSystem.numBlocks
    }

    /**
     * What `Read` needs of an initialised file: its disk holds its current
     * block and every block of its list, and unless it is at end of file
     * by the chosen test the cursor is on a byte of one of the first
     * LAST_INDEX blocks.
     */
    ghost predicate CanRead(strict: bool)
      reads this, blocks, fileSystem, if fileSystem == null then {} else {fileSystem.disk}
    {
      Initialised() ==>
        && fileSystem.disk != null && Blocks(fileSystem.disk.blocks, fileSystem.numBlocks)
        && blocks.Length == BLOCK_LIMIT && 0 <= currBlock < fileSystem.numBlocks
        && (forall k :: 0 <= k < BLOCK_LIMIT ==> 0 <= blocks[k] < fileSystem.numBlocks)
        && 1 <= index && (!EndOfFile(strict) ==> index <= LAST_INDEX && 0 <= pos < BLOCK_SIZE)
    }

    /** The block a read that started on block i0 of list bl, at block c0, is on at block ix of the list. */
    static function Current(bl: seq<int>, i0: int, c0: int, ix: int): int
    {
      if ix == i0 || !(1 <= ix <= |bl|) then c0 else bl[ix - 1]
    }

    /**
     * `Read`: copy bytes of the file from the cursor into buf until end of
     * file or n bytes, moving to the next block of the list at the end of
     * each block, and returning early when the block index passes
     * LAST_INDEX. It reads as many bytes as ReadSteps counts, each the byte
     * of the file at its offset.
     */
    method Read(n: u32, buf: array<byte>) returns (read: int)
      requires AsInt32(n) <= buf.Length && CanRead(false) && buf as object != blocks as object
      modifies this`index, this`pos, this`currBlock, buf
      ensures !old(Initialised()) || old(EoF()) ==>
        read == 0 && index == old(index) && pos == old(pos) && currBlock == old(currBlock) && buf[..] == old(buf[..])
      ensures old(Initialised()) && !old(EoF()) ==>
        var o := old(Offset());
        && read == ReadSteps(o, size, AsInt32(n), false)
        && ReadInto(buf[..], old(buf[..]), read, old(fileSystem.Data()), old(fileSystem.numBlocks), old(blocks[..]), old(index), old(currBlock), o)
        && (if o + read == LAST_INDEX * BLOCK_SIZE then index == LAST_INDEX + 1 && pos == BLOCK_SIZE
            else Offset() == o + read && old(index) <= index <= LAST_INDEX && 0 <= pos < BLOCK_SIZE)
        && currBlock == Current(blocks[..], old(index), old(currBlock), if index > LAST_INDEX then LAST_INDEX else index)
    {
      if currBlock == -1 || fileSystem == null {
        return 0;
      }
      if EoF() {
        // The loop below would not start: nothing is read.
        return 0;
      }
      read := ReadFrom(n, buf, false);
    }

    /**
     * `Read` as file.C:46-77 writes it, with the strict end-of-file test of
     * EoFAsWritten: the copy goes on while the cursor is at the size, so a
     * read to the end delivers one byte past it (FileNodes.ReadsPastEnd).
     */
    method ReadAsWritten(n: u32, buf: array<byte>) returns (read: int)
      requires AsInt32(n) <= buf.Length && CanRead(true) && buf as object != blocks as object
      modifies this`index, this`pos, this`currBlock, buf
      ensures !old(Initialised()) || old(EoFAsWritten()) ==>
        read == 0 && index == old(index) && pos == old(pos) && currBlock == old(currBlock) && buf[..] == old(buf[..])
      ensures old(Initialised()) && !old(EoFAsWritten()) ==>
        var o := old(Offset());
        && read == ReadSteps(o, size, AsInt32(n), true)
        && ReadInto(buf[..], old(buf[..]), read, old(fileSystem.Data()), old(fileSystem.numBlocks), old(blocks[..]), old(index), old(currBlock), o)
        && (if o + read == LAST_INDEX * BLOCK_SIZE then index == LAST_INDEX + 1 && pos == BLOCK_SIZE
            else Offset() == o + read && old(index) <= index <= LAST_INDEX && 0 <= pos < BLOCK_SIZE)
        && currBlock == Current(blocks[..], old(index), old(currBlock), if index > LAST_INDEX then LAST_INDEX else index)
    {
      if currBlock == -1 || fileSystem == null {
        return 0;
      }
      if EoFAsWritten() {
        return 0;
      }
      read := ReadFrom(n, buf, true);
    }

    /**
     * The copy loop of `Read` (file.C:52-76), from a cursor that is not at
     * end of file by the chosen test.
     */
    method ReadFrom(n: u32, buf: array<byte>, strict: bool) returns (read: int)
      requires AsInt32(n) <= buf.Length && Initialised() && CanRead(strict) && !EndOfFile(strict) && buf as object != blocks as object
      modifies this`index, this`pos, this`currBlock, buf
      ensures
        var o := old(Offset());
        && read == ReadSteps(o, size, AsInt32(n), strict)
        && ReadInto(buf[..], old(buf[..]), read, old(fileSystem.Data()), old(fileSystem.numBlocks), old(blocks[..]), old(index), old(currBlock), o)
        && (if o + read == LAST_INDEX * BLOCK_SIZE then index == LAST_INDEX + 1 && pos == BLOCK_SIZE
            else Offset() == o + read && old(index) <= index <= LAST_INDEX && 0 <= pos < BLOCK_SIZE)
        && currBlock == Current(blocks[..], old(index), old(currBlock), if index > LAST_INDEX then LAST_INDEX else index)
    {
      ghost var o: nat := Offset();
      read := ReadLoop(n, buf, strict, o, fileSystem.disk.blocks, fileSystem.numBlocks, blocks[..], index, currBlock);
    }

    /**
     * The loop of `Read` itself, from offset o of a read that started on
     * block i0 of list bl, at block c0, over the disk blocks D.
     */
    method ReadLoop(n: u32, buf: array<byte>, strict: bool, ghost o: nat, ghost D: seq<seq<byte>>, ghost N: nat,
                    ghost bl: seq<int>, ghost i0: int, ghost c0: int)
      returns (read: int)
      requires Reading(fileSystem, blocks, D, N, bl, i0, c0) && buf as object != blocks as object
      requires At(bl, i0, c0, o) && AsInt32(n) <= buf.Length
      modifies this`index, this`pos, this`currBlock, buf
      ensures read == ReadSteps(o, size, AsInt32(n), strict)
      ensures ReadInto(buf[..], old(buf[..]), read, D, N, bl, i0, c0, o)
      ensures if o + read == LAST_INDEX * BLOCK_SIZE then index == LAST_INDEX + 1 && pos == BLOCK_SIZE && currBlock == Current(bl, i0, c0, LAST_INDEX)
              else At(bl, i0, c0, o + read)
    {
      read := 0;
      var toRead := AsInt32(n);
      ghost var total := ReadSteps(o, size, toRead, strict);
      var block := fileSystem.disk.blocks[currBlock];
      while !EndOfFile(strict) && toRead > 0
        invariant 0 <= read && toRead == AsInt32(n) - read
        invariant At(bl, i0, c0, o + read) && block == D[currBlock]
        invariant total == read + ReadSteps(o + read, size, toRead, strict)
        invariant ReadInto(buf[..], old(buf[..]), read, D, N, bl, i0, c0, o)
      {
        ReadStepsNext(o + read, size, toRead, strict);
        var stop;
        stop, block := ReadByte(buf, read, block, old(buf[..]), D, N, bl, i0, c0, o);
        toRead := toRead - 1;
        read := read + 1;
        if stop {
          return read;
        }
      }
    }

    /** One pass of the loop of `Read` (file.C:62-74): copy the byte under the cursor into buf[read], then step. */
    method ReadByte(buf: array<byte>, read: nat, block: seq<byte>, ghost s0: seq<byte>, ghost D: seq<seq<byte>>, ghost N: nat,
                    ghost bl: seq<int>, ghost i0: int, ghost c0: int, ghost o: nat)
      returns (stop: bool, next: seq<byte>)
      requires Reading(fileSystem, blocks, D, N, bl, i0, c0) && buf as object != blocks as object
      requires At(bl, i0, c0, o + read) && block == D[currBlock] && read < buf.Length
      requires ReadInto(buf[..], s0, read, D, N, bl, i0, c0, o)
      modifies this`index, this`pos, this`currBlock, buf
      ensures ReadInto(buf[..], s0, read + 1, D, N, bl, i0, c0, o)
      ensures stop <==> o + read + 1 == LAST_INDEX * BLOCK_SIZE
      ensures stop ==> index == LAST_INDEX + 1 && pos == BLOCK_SIZE && currBlock == Current(bl, i0, c0, LAST_INDEX)
      ensures !stop ==> At(bl, i0, c0, o + read + 1) && 0 <= currBlock < N && next == D[currBlock]
    {
      CursorByte(D, N, bl, i0, c0, index, pos);
      ghost var before := buf[..];
      assert FileByte(D, N, bl, i0, c0, o + read) == block[pos];
      ReadIntoStep(before, s0, read, D, N, bl, i0, c0, o);
      buf[read] := block[pos];
      assert buf[..] == before[read := FileByte(D, N, bl, i0, c0, o + read)];
      stop, next := Advance(block, bl, i0, c0, o + read);
    }

    /**
     * What a read over the disk blocks D, in a file system of N blocks,
     * needs of the file system and of the block list bl, which it does not
     * change: every listed block, and the block c0 it started on, is on the
     * disk.
     */
    static ghost predicate Reading(fs: FileSystem?, list: array<int>, D: seq<seq<byte>>, N: nat, bl: seq<int>, i0: int, c0: int)
      reads fs, if fs == null then {} else {fs.disk}, list
    {
      && fs != null && fs.disk != null && fs.disk.blocks == D && Blocks(D, N)
      && list.Length == BLOCK_LIMIT && list[..] == bl
      && 0 <= c0 < N && (forall k :: 0 <= k < BLOCK_LIMIT ==> 0 <= bl[k] < N) && 1 <= i0
    }

    /**
     * The cursor is on block index - 1 of list bl at byte pos, at offset off
     * of the file, and on the block a read that started on block i0, at
     * block c0, is on there.
     */
    ghost predicate At(bl: seq<int>, i0: int, c0: int, off: int)
      reads this
    {
      i0 <= index <= LAST_INDEX && 0 <= pos < BLOCK_SIZE && Offset() == off && currBlock == Current(bl, i0, c0, index)
    }

    /**
     * The cursor step of `Read` (file.C:64-74): one byte on; at the end of a
     * block, on to the next block of the list and its contents, or a stop
     * once the block index passes LAST_INDEX.
     */
    method Advance(block: seq<byte>, ghost bl: seq<int>, ghost i0: int, ghost c0: int, ghost off: int)
      returns (stop: bool, next: seq<byte>)
      requires fileSystem != null && fileSystem.disk != null && blocks.Length == BLOCK_LIMIT && blocks[..] == bl
      requires forall k :: 0 <= k < BLOCK_LIMIT ==> 0 <= blocks[k] < |fileSystem.disk.blocks|
      requires 1 <= i0 && At(bl, i0, c0, off) && 0 <= currBlock < |fileSystem.disk.blocks|
      requires block == fileSystem.disk.blocks[currBlock]
      modifies this`index, this`pos, this`currBlock
      ensures stop <==> off + 1 == LAST_INDEX * BLOCK_SIZE
      ensures stop ==> index == LAST_INDEX + 1 && pos == BLOCK_SIZE && currBlock == Current(bl, i0, c0, LAST_INDEX)
      ensures !stop ==> At(bl, i0, c0, off + 1) && 0 <= currBlock < |fileSystem.disk.blocks| && next == fileSystem.disk.blocks[currBlock]
    {
      next := block;
      stop := false;
      pos := pos + 1;
      if pos >= BLOCK_SIZE {
        index := index + 1;
        if index > LAST_INDEX {
          return true, next;
        }
        currBlock := blocks[index - 1];
        next := fileSystem.disk.blocks[currBlock];
        pos := 0;
      }
    }

    /**
     * `Write`: put the first n bytes of data into the file at the cursor,
     * taking a block from `GetBlock` and recording it in the node each time
     * a block fills, then add n to the size and write the last block back.
     * Disk, map and cursor end as WriteBytes computes them, and the node
     * gains the taken blocks and n bytes of size.
     */
    method Write(n: u32, data: seq<byte>)
      requires AsInt32(n) <= |data|
      requires Initialised() ==>
        && Attached() && 0 <= pos < BLOCK_SIZE
        && (fileSystem.Slot(fd).Some? ==>
              var nd := fileSystem.Table()[fileSystem.Slot(fd).value];
              0 <= nd.bSize && nd.bSize + (pos + Wanted(n)) / BLOCK_SIZE < BLOCK_LIMIT)
      modifies this`size, this`pos, this`currBlock, if fileSystem == null then {} else {fileSystem.disk, fileSystem.blockMap}
      ensures !old(Initialised()) ==>
        && size == old(size) && pos == old(pos) && currBlock == old(currBlock)
        && (fileSystem != null ==>
              fileSystem.Data() == old(fileSystem.Data()) && fileSystem.Table() == old(fileSystem.Table())
              && fileSystem.blockMap[..] == old(fileSystem.blockMap[..]))
      ensures old(Initialised()) ==>
        var fs := fileSystem;
        var r := WriteBytes(old(fs.Data()), fs.numBlocks, old(fs.Data()[currBlock]), old(currBlock), old(pos),
                            data[..Wanted(n)], old(fs.blockMap[..]), fs.MapBytes());
        && Attached() && fs.Valid()
        && fs.Data() == Flushed(r) && fs.blockMap[..] == r.bits && currBlock == r.cur && pos == r.pos
        && (old(fs.Slot(fd)).None? ==> fs.Table() == old(fs.Table()) && size == old(size))
        && (old(fs.Slot(fd)).Some? ==>
              var k := old(fs.Slot(fd)).value;
              var nd := old(fs.Table()[k]);
              && fs.Table() == old(fs.Table())[k := AppendBlocks(nd, r.taken).(size := nd.size + Wanted(n))]
              && size == nd.size + Wanted(n))
    {
      if currBlock == -1 || fileSystem == null {
        return;
      }
      ghost var fs := fileSystem;
      ghost var r := WriteBytes(fs.Data(), fs.numBlocks, fs.Data()[currBlock], currBlock, pos, data[..Wanted(n)], fs.blockMap[..], fs.MapBytes());
      WriteFrom(n, data, fileSystem, fs.Data(), fs.blockMap[..], fs.Table(), fs.Slot(fd), r);
    }

    /** `Write` on an initialised file, with the state it starts from as ghost parameters. */
    method WriteFrom(n: u32, data: seq<byte>, fs: FileSystem, ghost d0: seq<seq<byte>>, ghost m0: seq<byte>,
                     ghost t0: seq<MNode>, ghost slot: Option<nat>, ghost r: WriteState)
      requires AsInt32(n) <= |data| && fileSystem == fs && Attached() && 0 <= pos < BLOCK_SIZE
      requires d0 == fs.Data() && m0 == fs.blockMap[..] && t0 == fs.Table() && slot == fs.Slot(fd)
      requires slot.Some? ==> 0 <= t0[slot.value].bSize && t0[slot.value].bSize + (pos + Wanted(n)) / BLOCK_SIZE < BLOCK_LIMIT
      requires r == WriteBytes(d0, fs.numBlocks, d0[currBlock], currBlock, pos, data[..Wanted(n)], m0, fs.MapBytes())
      modifies this`size, this`pos, this`currBlock, fs.disk, fs.blockMap
      ensures Wrote(fs, r, slot, t0, Wanted(n), old(size))
    {
      var W := Wanted(n);
      ghost var N, MB := fs.numBlocks, fs.MapBytes();
      var buf := fs.disk.blocks[currBlock];
      WritingStarts(fs, data[..W], buf, r, slot, t0, N, MB);
      ghost var taken;
      buf, taken := WriteLoop(n, fs, data[..W], buf, r, slot, t0, N, MB);
      assert |data[..W]| == W;
      WriteFinish(fs, data[..W], buf, r, taken, slot, t0, N, MB);
    }

    /**
     * The end of `Write` (file.C:108-109): the size grows by the bytes
     * written and the last buffer goes to its block.
     */
    method WriteFinish(fs: FileSystem, data: seq<byte>, buf: seq<byte>, ghost r: WriteState, ghost taken: seq<nat>,
                       ghost slot: Option<nat>, ghost t0: seq<MNode>, ghost N: nat, ghost MB: nat)
      requires Writing(fs, data, |data|, buf, r, taken, slot, t0, N, MB) && Attached()
      modifies fs.disk, this`size
      ensures Wrote(fs, r, slot, t0, |data|, old(size))
    {
      assert data[|data|..] == [];
      RemainingDone(fs.Data(), N, buf, currBlock, pos, fs.blockMap[..], MB, r, taken);
      ghost var t1 := fs.Table();
      fs.UpdateSize(|data|, fd, this);
      assert slot.Some? ==> fs.Table() == t0[slot.value := AppendBlocks(t0[slot.value], taken).(size := t0[slot.value].size + |data|)] by {
        if slot.Some? {
          assert fs.Table() == t1[slot.value := t1[slot.value].(size := t1[slot.value].size + |data|)];
        }
      }
      fs.WriteBlock(currBlock, buf);
    }

    /** Before the loop of `Write` nothing is written and no block is taken. */
    lemma WritingStarts(fs: FileSystem, data: seq<byte>, buf: seq<byte>, r: WriteState, slot: Option<nat>,
                        t0: seq<MNode>, N: nat, MB: nat)
      requires fileSystem == fs && Attached() && 0 <= pos < BLOCK_SIZE
      requires N == fs.numBlocks && MB == fs.MapBytes() && buf == fs.Data()[currBlock]
      requires r == WriteBytes(fs.Data(), N, buf, currBlock, pos, data, fs.blockMap[..], MB)
      requires t0 == fs.Table() && slot == fs.Slot(fd)
      requires slot.Some? ==> 0 <= t0[slot.value].bSize && t0[slot.value].bSize + (pos + |data|) / BLOCK_SIZE < BLOCK_LIMIT
      ensures Writing(fs, data, 0, buf, r, [], slot, t0, N, MB)
    {
      assert data[0..] == data;
      assert [] + r.taken == r.taken;
      if slot.Some? {
        assert fs.NodeOk(t0[slot.value]);
        AppendBlocksMeaning(t0[slot.value], []);
        assert t0[slot.value := AppendBlocks(t0[slot.value], [])] == t0;
      }
    }

    /**
     * The state `Write` leaves: disk, map and cursor as the write r ends,
     * the last buffer written back, and the node, if the file has one, with
     * the taken blocks appended and count bytes more of size.
     */
    ghost predicate Wrote(fs: FileSystem, r: WriteState, slot: Option<nat>, t0: seq<MNode>, count: int, size0: int)
      reads this, blocks, fs, fs.disk, fs.blockMap
    {
      && fileSystem == fs && Attached() && fs.Valid() && r.cur < |r.disk|
      && fs.Data() == Flushed(r) && fs.blockMap[..] == r.bits && currBlock == r.cur && pos == r.pos
      && (slot.None? ==> fs.Table() == t0 && size == size0)
      && (slot.Some? ==>
            var k := slot.value;
            && k < |t0| && 0 <= t0[k].bSize && t0[k].bSize + |r.taken| < |t0[k].block|
            && fs.Table() == t0[k := AppendBlocks(t0[k], r.taken).(size := t0[k].size + count)]
            && size == t0[k].size + count)
    }

    /** The loop of `Write` (file.C:93-107): the bytes of data in turn, as `n` counts them down. */
    method WriteLoop(n: u32, fs: FileSystem, data: seq<byte>, buf: seq<byte>, ghost r: WriteState, ghost slot: Option<nat>,
                     ghost t0: seq<MNode>, ghost N: nat, ghost MB: nat)
      returns (last: seq<byte>, ghost taken: seq<nat>)
      requires |data| == Wanted(n)
      requires Writing(fs, data, 0, buf, r, [], slot, t0, N, MB)
      modifies this`pos, this`currBlock, fs.disk, fs.blockMap
      ensures Writing(fs, data, |data|, last, r, taken, slot, t0, N, MB)
    {
      var write := 0;
      var toWrite := AsInt32(n);
      ghost var count := |data|;
      assert toWrite > 0 ==> toWrite == count;
      assert toWrite <= 0 ==> count == 0;
      last, taken := buf, [];
      while toWrite > 0
        invariant 0 <= write <= count && toWrite == AsInt32(n) - write
        invariant toWrite > 0 ==> toWrite == count - write
        invariant toWrite <= 0 ==> write == count
        invariant Writing(fs, data, write, last, r, taken, slot, t0, N, MB)
      {
        last, taken := WriteByte(fs, data, write, last, r, taken, slot, t0, N, MB);
        write := write + 1;
        toWrite := toWrite - 1;
      }
    }

    /**
     * The loop of `Write` has written data[..write]: buf is the buffer of
     * the current block, taken the blocks taken so far, and what is left to
     * do, as WriteBytes describes it, ends where the whole write r ends. The
     * node of the file has the taken blocks appended.
     */
    ghost predicate Writing(fs: FileSystem, data: seq<byte>, write: nat, buf: seq<byte>, r: WriteState,
                            taken: seq<nat>, slot: Option<nat>, t0: seq<MNode>, N: nat, MB: nat)
      reads this, fs, fs.disk, fs.blockMap
    {
      && OnDisk(fs) && write <= |data| && 0 <= pos < BLOCK_SIZE && |buf| == BLOCK_SIZE
      && N == fs.numBlocks && MB == fs.MapBytes() && fs.Slot(fd) == slot
      && Remaining(fs.Data(), N, buf, currBlock, pos, data[write..], fs.blockMap[..], MB, r, taken)
      && (slot.None? ==> fs.Table() == t0)
      && (slot.Some? ==>
            && slot.value < |t0| && |t0[slot.value].block| == BLOCK_LIMIT && 0 <= t0[slot.value].bSize && t0[slot.value].bSize + |r.taken| < BLOCK_LIMIT
            && fs.Table() == t0[slot.value := AppendBlocks(t0[slot.value], taken)])
    }

    /** One pass of the loop of `Write` (file.C:95-107): byte data[write] into the buffer, then on to a new block if it is full. */
    method WriteByte(fs: FileSystem, data: seq<byte>, write: nat, buf: seq<byte>, ghost r: WriteState,
                     ghost taken: seq<nat>, ghost slot: Option<nat>, ghost t0: seq<MNode>, ghost N: nat, ghost MB: nat)
      returns (next: seq<byte>, ghost taken': seq<nat>)
      requires Writing(fs, data, write, buf, r, taken, slot, t0, N, MB) && write < |data|
      modifies this`pos, this`currBlock, fs.disk, fs.blockMap
      ensures Writing(fs, data, write + 1, next, r, taken', slot, t0, N, MB)
    {
      if pos + 1 < BLOCK_SIZE {
        next := PutByte(fs, data, write, buf, r, taken, slot, t0, N, MB);
        taken' := taken;
      } else {
        next, taken' := CrossByte(fs, data, write, buf, r, taken, slot, t0, N, MB);
      }
    }

    /** A byte that does not fill the buffer: only the buffer and the position change. */
    method PutByte(fs: FileSystem, data: seq<byte>, write: nat, buf: seq<byte>, ghost r: WriteState,
                   ghost taken: seq<nat>, ghost slot: Option<nat>, ghost t0: seq<MNode>, ghost N: nat, ghost MB: nat)
      returns (next: seq<byte>)
      requires Writing(fs, data, write, buf, r, taken, slot, t0, N, MB) && write < |data| && pos + 1 < BLOCK_SIZE
      modifies this`pos
      ensures Writing(fs, data, write + 1, next, r, taken, slot, t0, N, MB)
    {
      assert data[write..][1..] == data[write + 1..] && data[write..][0] == data[write];
      RemainingPut(fs.Data(), N, buf, currBlock, pos, data[write..], fs.blockMap[..], MB, r, taken);
      next := buf[pos := data[write]];
      pos := pos + 1;
    }

    /** The byte that fills the buffer: the block is written back and the write goes on in a new one. */
    method CrossByte(fs: FileSystem, data: seq<byte>, write: nat, buf: seq<byte>, ghost r: WriteState,
                     ghost taken: seq<nat>, ghost slot: Option<nat>, ghost t0: seq<MNode>, ghost N: nat, ghost MB: nat)
      returns (next: seq<byte>, ghost taken': seq<nat>)
      requires Writing(fs, data, write, buf, r, taken, slot, t0, N, MB) && write < |data| && pos + 1 == BLOCK_SIZE
      modifies this`pos, this`currBlock, fs.disk, fs.blockMap
      ensures Writing(fs, data, write + 1, next, r, taken', slot, t0, N, MB)
    {
      assert data[write..][1..] == data[write + 1..] && data[write..][0] == data[write];
      RemainingCross(fs.Data(), N, buf, currBlock, pos, data[write..], fs.blockMap[..], MB, r, taken);
      ghost var b := Allocate(fs.blockMap[..], MB).1;
      ghost var t1 := fs.Table();
      next := buf[pos := data[write]];
      pos := pos + 1;
      next := NextBlock(next);
      taken' := taken + [b];
      if slot.Some? {
        ghost var k := slot.value;
        TableAppendStep(t0, k, taken, b);
        assert fs.Table() == t1[k := WithBlock(t1[k], b)];
      }
    }

    /**
     * The end of a block in `Write` (file.C:99-106): the full buffer goes to
     * its block, a new block comes from `GetBlock` and is recorded in the
     * node, and its contents become the buffer, from position 0.
     */
    method NextBlock(buf: seq<byte>) returns (next: seq<byte>)
      requires fileSystem != null && OnDisk(fileSystem) && |buf| == BLOCK_SIZE
      requires fileSystem.Slot(fd).Some? ==>
        var nd := fileSystem.Table()[fileSystem.Slot(fd).value];
        0 <= nd.bSize && nd.bSize + 1 < BLOCK_LIMIT
      modifies this`currBlock, this`pos, fileSystem.disk, fileSystem.blockMap
      ensures OnDisk(fileSystem) && fileSystem.Slot(fd) == old(fileSystem.Slot(fd))
      ensures
        var fs := fileSystem;
        var d1 := old(fs.Data())[old(currBlock) := buf];
        var (m1, b) := Allocate(old(fs.blockMap[..]), fs.MapBytes());
        && fs.Data() == d1 && fs.blockMap[..] == m1 && currBlock == b && pos == 0 && next == d1[b]
        && (old(fs.Slot(fd)).None? ==> fs.Table() == old(fs.Table()))
        && (old(fs.Slot(fd)).Some? ==>
              var k := old(fs.Slot(fd)).value;
              fs.Table() == old(fs.Table())[k := WithBlock(old(fs.Table())[k], b)])
    {
      fileSystem.WriteBlock(currBlock, buf);
      currBlock := fileSystem.GetBlock();
      fileSystem.UpdateBlockData(fd, currBlock);
      next := fileSystem.disk.blocks[currBlock];
      pos := 0;
    }

    /** `Reset` as intended: the cursor goes back to byte 0 of the first block. */
    method Reset()
      requires blocks.Length == BLOCK_LIMIT
      modifies this`pos, this`currBlock, this`index
      ensures pos == 0 && currBlock == blocks[0] && index == 1 && Offset() == 0
    {
      pos := 0;
      currBlock := blocks[0];
      index := 1;
    }

    /**
     * `Reset` as file.C:112-116 writes it: the block index is left as it
     * was, so the cursor lands at the start of block `index - 1` while
     * `curr_block` names the first block.
     */
    method ResetAsWritten()
      requires blocks.Length == BLOCK_LIMIT
      modifies this`pos, this`currBlock
      ensures pos == 0 && currBlock == blocks[0] && index == old(index)
      ensures Offset() == (old(index) - 1) * BLOCK_SIZE
    {
      pos := 0;
      currBlock := blocks[0];
    }

    /**
     * `Rewrite`: erase the file on the file system, then clear every entry
     * of the file's own block list but the first.
     */
    method Rewrite()
      requires fileSystem != null && fileSystem.Valid() && blocks.Length == BLOCK_LIMIT
      requires blocks as object != fileSystem.blockMap as object
      modifies fileSystem.disk, fileSystem.blockMap, blocks
      ensures fileSystem.Valid()
      ensures fileSystem.ErasedFrom(fd, old(fileSystem.Table()), old(fileSystem.Data()), old(fileSystem.blockMap[..]))
      ensures blocks[0] == old(blocks[0]) && forall k :: 1 <= k < BLOCK_LIMIT ==> blocks[k] == 0
    {
      fileSystem.EraseFile(fd);
      ClearList();
    }

    /** The loop of `Rewrite`: entries 1 to BLOCK_LIMIT - 1 of the block list become 0. */
    method ClearList()
      requires blocks.Length == BLOCK_LIMIT
      modifies blocks
      ensures blocks[0] == old(blocks[0]) && forall k :: 1 <= k < BLOCK_LIMIT ==> blocks[k] == 0
    {
      var i := 1;
      while i < BLOCK_LIMIT
        invariant 1 <= i <= BLOCK_LIMIT
        invariant blocks[0] == old(blocks[0]) && forall k :: 1 <= k < i ==> blocks[k] == 0
      {
        blocks[i] := 0;
        i := i + 1;
      }
    }
  }
}
