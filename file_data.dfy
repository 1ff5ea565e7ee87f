/**
 * What a sequential write does to the disk, byte by byte as the loop of
 * `File::Write` runs, and which disk byte a sequential read delivers. The
 * disk is a sequence of 512-byte blocks; blocks below `limit` exist.
 */
module FileData {
  import opened Common
  import opened BlockMaps
  import opened FileNodes

  /**
   * The state the write loop carries: the disk, the buffer of the block
   * being filled, that block and the position in it, the free-block map,
   * and the blocks taken from the map so far.
   */
  datatype WriteState = WriteState(
    disk: seq<seq<byte>>, buf: seq<byte>, cur: nat, pos: nat, bits: seq<byte>, taken: seq<nat>)

  /** Every block below limit exists and holds BLOCK_SIZE bytes. */
  ghost predicate Blocks(d: seq<seq<byte>>, limit: nat)
  {
    limit <= |d| && forall j :: 0 <= j < limit ==> |d[j]| == BLOCK_SIZE
  }

  /**
   * Writing data from position pos of block cur, whose contents are in buf:
   * each byte goes into the buffer; when the buffer is full it is written
   * to its block, a block is taken from the map and its contents become
   * the buffer. The last buffer is not yet written back.
   */
  function WriteBytes(d: seq<seq<byte>>, limit: nat, buf: seq<byte>, cur: nat, pos: nat,
                      data: seq<byte>, bits: seq<byte>, bytes: nat): (r: WriteState)
    requires Blocks(d, limit) && cur < limit && 8 * bytes <= limit && bytes <= |bits|
    requires |buf| == BLOCK_SIZE && pos < BLOCK_SIZE
    ensures Blocks(r.disk, limit) && |r.disk| == |d| && r.cur < limit && |r.buf| == BLOCK_SIZE
    ensures |r.bits| == |bits|
    ensures |r.taken| == (pos + |data|) / BLOCK_SIZE && r.pos == (pos + |data|) % BLOCK_SIZE
    ensures r.cur == if r.taken == [] then cur else r.taken[|r.taken| - 1]
    ensures forall i :: 0 <= i < |r.taken| ==> r.taken[i] < limit
    decreases |data|
  {
    if data == [] then WriteState(d, buf, cur, pos, bits, [])
    else
      var full := buf[pos := data[0]];
      if pos + 1 < BLOCK_SIZE then
        WriteBytes(d, limit, full, cur, pos + 1, data[1..], bits, bytes)
      else
        var d1 := d[cur := full];
        var (bits1, b) := Allocate(bits, bytes);
        var r := WriteBytes(d1, limit, d1[b], b, 0, data[1..], bits1, bytes);
        r.(taken := [b] + r.taken)
  }

  /** The disk once the last buffer is written back, as `Write` does after its loop. */
  function Flushed(r: WriteState): (f: seq<seq<byte>>)
    requires r.cur < |r.disk|
  {
    r.disk[r.cur := r.buf]
  }

  /** The block that byte i of the data goes to: the starting block, then the taken ones. */
  function Target(cur: nat, taken: seq<nat>, pos: nat, i: nat): nat
    requires (pos + i) / BLOCK_SIZE <= |taken|
  {
    if (pos + i) / BLOCK_SIZE == 0 then cur else taken[(pos + i) / BLOCK_SIZE - 1]
  }

  /** The blocks taken from the map are those of as many `GetBlock` calls in a row. */
  lemma {:induction false} WriteAllocates(d: seq<seq<byte>>, limit: nat, buf: seq<byte>, cur: nat, pos: nat,
                                          data: seq<byte>, bits: seq<byte>, bytes: nat)
    requires Blocks(d, limit) && cur < limit && 8 * bytes <= limit && bytes <= |bits|
    requires |buf| == BLOCK_SIZE && pos < BLOCK_SIZE
    ensures
      var r := WriteBytes(d, limit, buf, cur, pos, data, bits, bytes);
      var n := AllocateN(bits, bytes, |r.taken|);
      r.bits == n.bits && r.taken == n.blocks
    decreases |data|
  {
    if data != [] {
      var full := buf[pos := data[0]];
      if pos + 1 < BLOCK_SIZE {
        WriteAllocates(d, limit, full, cur, pos + 1, data[1..], bits, bytes);
      } else {
        var d1 := d[cur := full];
        var (bits1, b) := Allocate(bits, bytes);
        WriteAllocates(d1, limit, d1[b], b, 0, data[1..], bits1, bytes);
      }
    }
  }

  /** The arithmetic of Target when the write moves one byte on. */
  lemma TargetStep(cur: nat, b: nat, taken: seq<nat>, pos: nat, i: nat)
    requires 0 < i && pos < BLOCK_SIZE && (pos + i) / BLOCK_SIZE <= |taken| + 1
    ensures pos + 1 < BLOCK_SIZE ==>
      (pos + 1 + (i - 1)) / BLOCK_SIZE <= |taken| + 1 &&
      Target(cur, [b] + taken, pos + 1, i - 1) == Target(cur, [b] + taken, pos, i)
    ensures pos + 1 == BLOCK_SIZE ==>
      (i - 1) / BLOCK_SIZE <= |taken| &&
      Target(b, taken, 0, i - 1) == Target(cur, [b] + taken, pos, i) &&
      (pos + i) % BLOCK_SIZE == (i - 1) % BLOCK_SIZE
  {
    if pos + 1 == BLOCK_SIZE {
      assert (pos + i) / BLOCK_SIZE == (i - 1) / BLOCK_SIZE + 1;
    }
  }

  /**
   * Each byte of the data is in its block at its offset, no block but the
   * starting and the taken ones has changed, and the starting block keeps
   * its bytes outside the written range.
   */
  ghost predicate Placed(d: seq<seq<byte>>, limit: nat, buf: seq<byte>, cur: nat, pos: nat,
                         data: seq<byte>, bits: seq<byte>, bytes: nat)
    requires Blocks(d, limit) && cur < limit && 8 * bytes <= limit && bytes <= |bits|
    requires |buf| == BLOCK_SIZE && pos < BLOCK_SIZE
  {
    var r := WriteBytes(d, limit, buf, cur, pos, data, bits, bytes);
    var f := Flushed(r);
    && Lands(f, cur, r.taken, pos, data)
    && (forall j :: 0 <= j < |d| && j != cur && j !in r.taken ==> f[j] == d[j])
    && (forall j :: 0 <= j < BLOCK_SIZE && !(pos <= j < pos + |data|) ==> f[cur][j] == buf[j])
  }

  /** Byte i of data is in f at its offset in block Target(cur, taken, pos, i). */
  ghost predicate Lands(f: seq<seq<byte>>, cur: nat, taken: seq<nat>, pos: nat, data: seq<byte>)
  {
    forall i :: 0 <= i < |data| ==>
      && (pos + i) / BLOCK_SIZE <= |taken|
      && Target(cur, taken, pos, i) < |f| && (pos + i) % BLOCK_SIZE < |f[Target(cur, taken, pos, i)]|
      && f[Target(cur, taken, pos, i)][(pos + i) % BLOCK_SIZE] == data[i]
  }

  /** A first byte at pos in block cur, and the rest from pos + 1, place the whole data. */
  lemma LandsWithin(f: seq<seq<byte>>, cur: nat, taken: seq<nat>, pos: nat, data: seq<byte>)
    requires pos + 1 < BLOCK_SIZE && data != []
    requires cur < |f| && pos < |f[cur]| && f[cur][pos] == data[0]
    requires Lands(f, cur, taken, pos + 1, data[1..])
    ensures Lands(f, cur, taken, pos, data)
  {
    forall i | 0 <= i < |data|
      ensures (pos + i) / BLOCK_SIZE <= |taken|
      ensures Target(cur, taken, pos, i) < |f| && (pos + i) % BLOCK_SIZE < |f[Target(cur, taken, pos, i)]|
      ensures f[Target(cur, taken, pos, i)][(pos + i) % BLOCK_SIZE] == data[i]
    {
      if i > 0 {
        assert data[1..][i - 1] == data[i];
        assert pos + 1 + (i - 1) == pos + i;
      }
    }
  }

  /** A first byte that fills block cur, and the rest from byte 0 of block b, place the whole data. */
  lemma LandsCross(f: seq<seq<byte>>, cur: nat, b: nat, taken: seq<nat>, pos: nat, data: seq<byte>)
    requires pos + 1 == BLOCK_SIZE && data != []
    requires cur < |f| && pos < |f[cur]| && f[cur][pos] == data[0]
    requires Lands(f, b, taken, 0, data[1..])
    ensures Lands(f, cur, [b] + taken, pos, data)
  {
    forall i | 0 <= i < |data|
      ensures (pos + i) / BLOCK_SIZE <= |[b] + taken|
      ensures Target(cur, [b] + taken, pos, i) < |f| && (pos + i) % BLOCK_SIZE < |f[Target(cur, [b] + taken, pos, i)]|
      ensures f[Target(cur, [b] + taken, pos, i)][(pos + i) % BLOCK_SIZE] == data[i]
    {
      if i > 0 {
        assert data[1..][i - 1] == data[i];
        assert (pos + i) / BLOCK_SIZE == (i - 1) / BLOCK_SIZE + 1;
        TargetStep(cur, b, taken, pos, i);
      }
    }
  }

  /** When the starting block and the taken blocks are all different, the write places every byte. */
  lemma {:induction false} WritePlacement(d: seq<seq<byte>>, limit: nat, buf: seq<byte>, cur: nat, pos: nat,
                                          data: seq<byte>, bits: seq<byte>, bytes: nat)
    requires Blocks(d, limit) && cur < limit && 8 * bytes <= limit && bytes <= |bits|
    requires |buf| == BLOCK_SIZE && pos < BLOCK_SIZE
    requires Distinct([cur] + WriteBytes(d, limit, buf, cur, pos, data, bits, bytes).taken)
    ensures Placed(d, limit, buf, cur, pos, data, bits, bytes)
    decreases |data|, 1
  {
    if data == [] {
    } else if pos + 1 < BLOCK_SIZE {
      PlacementWithin(d, limit, buf, cur, pos, data, bits, bytes);
    } else {
      PlacementCrossing(d, limit, buf, cur, pos, data, bits, bytes);
    }
  }

  /** The first byte fits in the current block. */
  lemma {:induction false} PlacementWithin(d: seq<seq<byte>>, limit: nat, buf: seq<byte>, cur: nat, pos: nat,
                                           data: seq<byte>, bits: seq<byte>, bytes: nat)
    requires Blocks(d, limit) && cur < limit && 8 * bytes <= limit && bytes <= |bits|
    requires |buf| == BLOCK_SIZE && pos + 1 < BLOCK_SIZE && data != []
    requires Distinct([cur] + WriteBytes(d, limit, buf, cur, pos, data, bits, bytes).taken)
    ensures Placed(d, limit, buf, cur, pos, data, bits, bytes)
    decreases |data|, 0
  {
    var r := WriteBytes(d, limit, buf, cur, pos, data, bits, bytes);
    var f := Flushed(r);
    var full := buf[pos := data[0]];
    assert r == WriteBytes(d, limit, full, cur, pos + 1, data[1..], bits, bytes);
    WritePlacement(d, limit, full, cur, pos + 1, data[1..], bits, bytes);
    assert f[cur][pos] == full[pos];
    LandsWithin(f, cur, r.taken, pos, data);
  }

  /** The first byte fills the current block, which is written out before a new one is taken. */
  lemma {:induction false} PlacementCrossing(d: seq<seq<byte>>, limit: nat, buf: seq<byte>, cur: nat, pos: nat,
                                             data: seq<byte>, bits: seq<byte>, bytes: nat)
    requires Blocks(d, limit) && cur < limit && 8 * bytes <= limit && bytes <= |bits|
    requires |buf| == BLOCK_SIZE && pos + 1 == BLOCK_SIZE && data != []
    requires Distinct([cur] + WriteBytes(d, limit, buf, cur, pos, data, bits, bytes).taken)
    ensures Placed(d, limit, buf, cur, pos, data, bits, bytes)
    decreases |data|, 0
  {
    var r := WriteBytes(d, limit, buf, cur, pos, data, bits, bytes);
    var f := Flushed(r);
    var full := buf[pos := data[0]];
    var d1 := d[cur := full];
    var (bits1, b) := Allocate(bits, bytes);
    var r1 := WriteBytes(d1, limit, d1[b], b, 0, data[1..], bits1, bytes);
    assert r == r1.(taken := [b] + r1.taken);
    CrossingDistinct(cur, b, r1.taken);
    WritePlacement(d1, limit, d1[b], b, 0, data[1..], bits1, bytes);
    assert f == Flushed(r1);
    assert f[cur] == full;
    forall j | 0 <= j < |d| && j != cur && j !in r.taken ensures f[j] == d[j] {
      assert j != b && j !in r1.taken;
    }
    LandsCross(f, cur, b, r1.taken, pos, data);
  }

  /** Distinct blocks after the current one stay distinct without it. */
  lemma CrossingDistinct(cur: nat, b: nat, rest: seq<nat>)
    requires Distinct([cur] + ([b] + rest))
    ensures Distinct([b] + rest) && cur != b && cur !in rest
  {
    var all := [cur] + ([b] + rest);
    assert forall i :: 0 <= i < |[b] + rest| ==> ([b] + rest)[i] == all[i + 1];
    assert forall i :: 0 <= i < |rest| ==> rest[i] == all[i + 2];
    assert all[0] == cur && all[1] == b && all[1] != all[0];
    assert forall i :: 0 <= i < |rest| ==> rest[i] != all[0];
  }

  /**
   * A write from a block that is marked in use, in which every `GetBlock`
   * succeeds, places every byte: the blocks it takes are free, so they
   * differ from the starting block and from each other.
   */
  lemma WriteLandsData(d: seq<seq<byte>>, limit: nat, buf: seq<byte>, cur: nat, pos: nat,
                       data: seq<byte>, bits: seq<byte>, bytes: nat)
    requires Blocks(d, limit) && cur < limit && 8 * bytes <= limit && bytes <= |bits|
    requires |buf| == BLOCK_SIZE && pos < BLOCK_SIZE
    requires cur / 8 < |bits| && IsSet(bits, cur)
    requires AllHanded(WriteBytes(d, limit, buf, cur, pos, data, bits, bytes).taken)
    ensures Placed(d, limit, buf, cur, pos, data, bits, bytes)
  {
    var r := WriteBytes(d, limit, buf, cur, pos, data, bits, bytes);
    WriteAllocates(d, limit, buf, cur, pos, data, bits, bytes);
    AllocateNDistinct(bits, bytes, |r.taken|);
    AllocateNFresh(bits, bytes, |r.taken|);
    InUseNotTaken(bits, cur, r.taken);
    WritePlacement(d, limit, buf, cur, pos, data, bits, bytes);
  }

  /** A block in use is none of a list of distinct free blocks, so adding it keeps them distinct. */
  lemma InUseNotTaken(bits: seq<byte>, cur: nat, taken: seq<nat>)
    requires Distinct(taken) && FreshIn(bits, taken)
    requires cur / 8 < |bits| && IsSet(bits, cur)
    ensures Distinct([cur] + taken)
  {
    var all := [cur] + taken;
    forall i, j | 0 <= i < j < |all| ensures all[i] != all[j] {
      assert all[j] == taken[j - 1];
      if i > 0 {
        assert all[i] == taken[i - 1];
      }
    }
  }

  /**
   * The byte at file offset o as `Read` fetches it: from the block the
   * cursor holds while o is in the cursor's block index, from the file's
   * block list after that.
   */
  function FileByte(d: seq<seq<byte>>, limit: nat, blocks: seq<int>, index: int, cur: int, o: nat): byte
    requires Blocks(d, limit) && 0 <= cur < limit && o / BLOCK_SIZE < |blocks|
    requires forall k :: 0 <= k < |blocks| ==> 0 <= blocks[k] < limit
  {
    var b := if o / BLOCK_SIZE == index - 1 then cur else blocks[o / BLOCK_SIZE];
    d[b][o % BLOCK_SIZE]
  }

  /** The byte under a cursor at byte pos of block index - 1 of the list is byte pos of the block it is on. */
  lemma CursorByte(d: seq<seq<byte>>, limit: nat, blocks: seq<int>, i0: int, c0: int, index: int, pos: int)
    requires Blocks(d, limit) && 0 <= c0 < limit && |blocks| == BLOCK_LIMIT
    requires forall k :: 0 <= k < |blocks| ==> 0 <= blocks[k] < limit
    requires 1 <= index <= LAST_INDEX && 0 <= pos < BLOCK_SIZE
    ensures var o := (index - 1) * BLOCK_SIZE + pos;
      && o / BLOCK_SIZE == index - 1 && o % BLOCK_SIZE == pos
      && FileByte(d, limit, blocks, i0, c0, o) == d[if index == i0 then c0 else blocks[index - 1]][pos]
  {
    var o := (index - 1) * BLOCK_SIZE + pos;
    assert o / BLOCK_SIZE == index - 1 && o % BLOCK_SIZE == pos;
  }

  /**
   * The caller's buffer s after a read of count bytes from offset o: its
   * first count bytes are the file's bytes from o on, the rest are those of
   * s0, the buffer before the read.
   */
  ghost predicate ReadInto(s: seq<byte>, s0: seq<byte>, count: nat, d: seq<seq<byte>>, limit: nat,
                           blocks: seq<int>, i0: int, c0: int, o: nat)
    requires Blocks(d, limit) && 0 <= c0 < limit && |blocks| == BLOCK_LIMIT
    requires forall k :: 0 <= k < |blocks| ==> 0 <= blocks[k] < limit
    requires o + count <= LAST_INDEX * BLOCK_SIZE
  {
    && |s| == |s0| && count <= |s|
    && (forall k :: 0 <= k < count ==> s[k] == FileByte(d, limit, blocks, i0, c0, o + k))
    && (forall k :: count <= k < |s| ==> s[k] == s0[k])
  }

  /** Copying the file's next byte into the buffer extends the read by one byte. */
  lemma ReadIntoStep(s: seq<byte>, s0: seq<byte>, count: nat, d: seq<seq<byte>>, limit: nat,
                     blocks: seq<int>, i0: int, c0: int, o: nat)
    requires Blocks(d, limit) && 0 <= c0 < limit && |blocks| == BLOCK_LIMIT
    requires forall k :: 0 <= k < |blocks| ==> 0 <= blocks[k] < limit
    requires o + count < LAST_INDEX * BLOCK_SIZE && count < |s|
    requires ReadInto(s, s0, count, d, limit, blocks, i0, c0, o)
    ensures ReadInto(s[count := FileByte(d, limit, blocks, i0, c0, o + count)], s0, count + 1, d, limit, blocks, i0, c0, o)
  {
  }

  /**
   * A write of which rest is still to do, from buffer buf at byte pos of
   * block cur, ends as the whole write r does, the blocks taken so far
   * coming before those still to be taken.
   */
  ghost predicate Remaining(d: seq<seq<byte>>, limit: nat, buf: seq<byte>, cur: nat, pos: nat, rest: seq<byte>,
                            bits: seq<byte>, bytes: nat, r: WriteState, taken: seq<nat>)
    requires Blocks(d, limit) && cur < limit && 8 * bytes <= limit && bytes <= |bits|
    requires |buf| == BLOCK_SIZE && pos < BLOCK_SIZE
  {
    var s := WriteBytes(d, limit, buf, cur, pos, rest, bits, bytes);
    r == s.(taken := taken + s.taken)
  }

  /** A byte that leaves room in the buffer goes into it. */
  lemma RemainingPut(d: seq<seq<byte>>, limit: nat, buf: seq<byte>, cur: nat, pos: nat, rest: seq<byte>,
                     bits: seq<byte>, bytes: nat, r: WriteState, taken: seq<nat>)
    requires Blocks(d, limit) && cur < limit && 8 * bytes <= limit && bytes <= |bits|
    requires |buf| == BLOCK_SIZE && pos + 1 < BLOCK_SIZE && rest != []
    requires Remaining(d, limit, buf, cur, pos, rest, bits, bytes, r, taken)
    ensures Remaining(d, limit, buf[pos := rest[0]], cur, pos + 1, rest[1..], bits, bytes, r, taken)
  {
  }

  /**
   * The byte that fills the buffer: the buffer goes to its block, the next
   * block is taken from the map and the write goes on at its byte 0.
   */
  lemma RemainingCross(d: seq<seq<byte>>, limit: nat, buf: seq<byte>, cur: nat, pos: nat, rest: seq<byte>,
                       bits: seq<byte>, bytes: nat, r: WriteState, taken: seq<nat>)
    requires Blocks(d, limit) && cur < limit && 8 * bytes <= limit && bytes <= |bits|
    requires |buf| == BLOCK_SIZE && pos + 1 == BLOCK_SIZE && rest != []
    requires Remaining(d, limit, buf, cur, pos, rest, bits, bytes, r, taken)
    ensures |taken| < |r.taken|
    ensures
      var d1 := d[cur := buf[pos := rest[0]]];
      var (bits1, b) := Allocate(bits, bytes);
      && Blocks(d1, limit) && b < limit
      && Remaining(d1, limit, d1[b], b, 0, rest[1..], bits1, bytes, r, taken + [b])
  {
    var d1 := d[cur := buf[pos := rest[0]]];
    var (bits1, b) := Allocate(bits, bytes);
    var s' := WriteBytes(d1, limit, d1[b], b, 0, rest[1..], bits1, bytes);
    assert taken + ([b] + s'.taken) == (taken + [b]) + s'.taken;
  }

  /** Once nothing is left to write, the state is the end of the whole write. */
  lemma RemainingDone(d: seq<seq<byte>>, limit: nat, buf: seq<byte>, cur: nat, pos: nat,
                      bits: seq<byte>, bytes: nat, r: WriteState, taken: seq<nat>)
    requires Blocks(d, limit) && cur < limit && 8 * bytes <= limit && bytes <= |bits|
    requires |buf| == BLOCK_SIZE && pos < BLOCK_SIZE
    requires Remaining(d, limit, buf, cur, pos, [], bits, bytes, r, taken)
    ensures r == WriteState(d, buf, cur, pos, bits, taken)
  {
    assert taken + [] == taken;
  }
}
