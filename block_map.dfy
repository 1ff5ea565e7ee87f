/**
 * The file system's free-block bitmap as a value: bit b%8 of byte b/8 is
 * set when block b is in use. This module holds the bit-level meaning of
 * the map, the first-fit search, and the reservation of the node-table
 * blocks that formatting performs.
 */
module BlockMaps {
  import opened Common

  /** The byte with only bit k set. */
  function Bit(k: nat): (x: byte)
    requires k < 8
    ensures x != 0
  {
    if k == 0 then 1 else if k == 1 then 2 else if k == 2 then 4 else if k == 3 then 8
    else if k == 4 then 0x10 else if k == 5 then 0x20 else if k == 6 then 0x40 else 0x80
  }

  /** Bit(k) is the source's `1 << k`. */
  lemma BitIsShift(k: nat)
    requires k < 8
    ensures Bit(k) == (1 as byte) << k
  {
  }

  /** The bit of a byte that stands for block b. */
  function Mask(b: nat): (m: byte)
  {
    Bit(b % 8)
  }

  /** Block b is marked in use. */
  predicate IsSet(m: seq<byte>, b: nat)
    requires b / 8 < |m|
  {
    m[b / 8] & Mask(b) != 0
  }

  /** `block_map[b/8] | (1 << b%8)`: mark block b in use. */
  function SetBit(m: seq<byte>, b: nat): (r: seq<byte>)
    requires b / 8 < |m|
    ensures |r| == |m|
  {
    m[b / 8 := m[b / 8] | Mask(b)]
  }

  /** The `|` then `^` of `FreeBlock`: mark block b free. */
  function ClearBit(m: seq<byte>, b: nat): (r: seq<byte>)
    requires b / 8 < |m|
    ensures |r| == |m|
  {
    m[b / 8 := (m[b / 8] | Mask(b)) ^ Mask(b)]
  }

  /** Setting or clearing bit i of a byte changes bit i and no other. */
  lemma ByteBits(x: byte, i: nat, j: nat)
    requires i < 8 && j < 8
    ensures (x | Bit(i)) & Bit(j) != 0 <==> i == j || x & Bit(j) != 0
    ensures ((x | Bit(i)) ^ Bit(i)) & Bit(j) != 0 <==> i != j && x & Bit(j) != 0
  {
  }

  /** Clearing a bit twice, and setting then clearing a clear bit, on one byte. */
  lemma ByteUndo(x: byte, i: nat)
    requires i < 8
    ensures (((x | Bit(i)) ^ Bit(i)) | Bit(i)) ^ Bit(i) == (x | Bit(i)) ^ Bit(i)
    ensures x & Bit(i) == 0 ==> ((x | Bit(i)) | Bit(i)) ^ Bit(i) == x
  {
  }

  /** Two blocks in one byte have different bits. */
  lemma SameByte(b: nat, c: nat)
    requires b / 8 == c / 8 && b != c
    ensures b % 8 != c % 8
  {
  }

  /** SetBit marks b and leaves every other block as it was. */
  lemma SetBitMeaning(m: seq<byte>, b: nat, c: nat)
    requires b / 8 < |m| && c / 8 < |m|
    ensures IsSet(SetBit(m, b), c) <==> c == b || IsSet(m, c)
  {
    if b / 8 == c / 8 {
      if b != c {
        SameByte(b, c);
      }
      ByteBits(m[b / 8], b % 8, c % 8);
    }
  }

  /** ClearBit frees b and leaves every other block as it was. */
  lemma ClearBitMeaning(m: seq<byte>, b: nat, c: nat)
    requires b / 8 < |m| && c / 8 < |m|
    ensures IsSet(ClearBit(m, b), c) <==> c != b && IsSet(m, c)
  {
    if b / 8 == c / 8 {
      if b != c {
        SameByte(b, c);
      }
      ByteBits(m[b / 8], b % 8, c % 8);
    }
  }

  /** Freeing a block twice is freeing it once. */
  lemma FreeIdempotent(m: seq<byte>, b: nat)
    requires b / 8 < |m|
    ensures ClearBit(ClearBit(m, b), b) == ClearBit(m, b)
  {
    ByteUndo(m[b / 8], b % 8);
  }

  /** Freeing a block that was free gives back the map it was taken from. */
  lemma FreeUndoesSet(m: seq<byte>, b: nat)
    requires b / 8 < |m| && !IsSet(m, b)
    ensures ClearBit(SetBit(m, b), b) == m
  {
    ByteUndo(m[b / 8], b % 8);
    assert ClearBit(SetBit(m, b), b)[b / 8] == m[b / 8];
  }

  /**
   * The first-fit search of `GetBlock`, over the bytes from..bytes of the
   * map: the lowest block whose bit is clear, if any.
   */
  function LowestClear(m: seq<byte>, bytes: nat, from: nat): (r: Option<nat>)
    requires from <= bytes <= |m|
    ensures r.Some? ==> 8 * from <= r.value < 8 * bytes && !IsSet(m, r.value)
    ensures r.Some? ==> forall c :: 8 * from <= c < r.value ==> IsSet(m, c)
    ensures r.None? ==> forall c :: 8 * from <= c < 8 * bytes ==> IsSet(m, c)
    decreases bytes - from
  {
    if from == bytes then None
    else if m[from] == 0xFF then
      var rest := LowestClear(m, bytes, from + 1);
      FullByte(m, from);
      rest
    else
      var j := LowestClearBit(m[from], 0);
      ClearBitOfByte(m, from, j);
      Some(8 * from + j)
  }

  /** Every block of a byte that is 0xFF is in use. */
  lemma FullByte(m: seq<byte>, i: nat)
    requires i < |m| && m[i] == 0xFF
    ensures forall c :: 8 * i <= c < 8 * i + 8 ==> IsSet(m, c)
  {
    forall c | 8 * i <= c < 8 * i + 8 ensures IsSet(m, c) {
      assert c / 8 == i;
      var k := c % 8;
      assert 0xFF & Bit(k) != 0 by { assert k < 8; }
    }
  }

  /** The lowest clear bit of x at or above from, found bit by bit as the inner loop of `GetBlock` does. */
  function LowestClearBit(x: byte, from: nat): (j: nat)
    requires from <= 8
    requires forall k :: 0 <= k < from ==> x & Bit(k) != 0
    ensures from <= j <= 8
    ensures forall k :: 0 <= k < j ==> x & Bit(k) != 0
    ensures j < 8 ==> x & Bit(j) == 0
    ensures x != 0xFF ==> j < 8
    decreases 8 - from
  {
    if from == 8 then
      AllBitsSet(x);
      8
    else if x & Bit(from) != 0 then LowestClearBit(x, from + 1)
    else from
  }

  /** A clear bit j with every bit below it set is the one LowestClearBit finds. */
  lemma LowestClearBitIs(x: byte, j: nat)
    requires j < 8 && x & Bit(j) == 0
    requires forall k :: 0 <= k < j ==> x & Bit(k) != 0
    ensures x != 0xFF && LowestClearBit(x, 0) == j
  {
    assert 0xFF & Bit(j) != 0;
    var r := LowestClearBit(x, 0);
    assert r < 8 && x & Bit(r) == 0;
    assert r <= j;
    assert r >= j;
  }

  /** A byte that is not full holds the search's answer: its own lowest clear bit. */
  lemma FirstFitInByte(m: seq<byte>, bytes: nat, i: nat, j: nat)
    requires i < bytes <= |m| && j < 8
    requires m[i] & Bit(j) == 0
    requires forall k :: 0 <= k < j ==> m[i] & Bit(k) != 0
    ensures LowestClear(m, bytes, i) == Some(8 * i + j)
  {
    LowestClearBitIs(m[i], j);
  }

  /** Block 8i + j is bit j of byte i. */
  lemma SetBitInByte(m: seq<byte>, i: nat, j: nat)
    requires i < |m| && j < 8
    ensures SetBit(m, 8 * i + j) == m[i := m[i] | Bit(j)]
  {
    assert (8 * i + j) / 8 == i && (8 * i + j) % 8 == j;
  }

  /** A byte with all eight bits set is 0xFF. */
  lemma AllBitsSet(x: byte)
    requires forall k :: 0 <= k < 8 ==> x & Bit(k) != 0
    ensures x == 0xFF
  {
    assert x & Bit(0) != 0 && x & Bit(1) != 0 && x & Bit(2) != 0 && x & Bit(3) != 0;
    assert x & Bit(4) != 0 && x & Bit(5) != 0 && x & Bit(6) != 0 && x & Bit(7) != 0;
  }

  /** The bits found by LowestClearBit within byte i are the blocks 8i+k. */
  lemma ClearBitOfByte(m: seq<byte>, i: nat, j: nat)
    requires i < |m| && j < 8
    requires m[i] & Bit(j) == 0
    requires forall k :: 0 <= k < j ==> m[i] & Bit(k) != 0
    ensures !IsSet(m, 8 * i + j)
    ensures forall c :: 8 * i <= c < 8 * i + j ==> IsSet(m, c)
  {
    forall c | 8 * i <= c < 8 * i + j ensures IsSet(m, c) {
      assert c / 8 == i && c % 8 == c - 8 * i;
    }
    assert (8 * i + j) / 8 == i && (8 * i + j) % 8 == j;
  }

  /**
   * The partial byte `Format` builds after the 0xFF bytes of the node
   * table, with the intended `x |= 1 << j` for j < count: one bit per
   * node-table block that the full bytes do not cover.
   */
  function ReserveByte(count: nat): (x: byte)
    requires count <= 8
    ensures forall k :: 0 <= k < 8 ==> (x & Bit(k) != 0 <==> k < count)
  {
    if count == 0 then 0
    else
      var y := ReserveByte(count - 1);
      assert forall k :: 0 <= k < 8 ==> ((y | Bit(count - 1)) & Bit(k) != 0 <==> k < count) by {
        forall k | 0 <= k < 8 ensures (y | Bit(count - 1)) & Bit(k) != 0 <==> k < count {
          ByteBits(y, count - 1, k);
        }
      }
      y | Bit(count - 1)
  }

  /**
   * The same byte as `Format` writes it, `x |= i << j` with i the index of
   * the partial byte, the result truncated to the byte `block_map` holds.
   */
  function ReserveByteAsWritten(i: nat, count: nat): (r: byte)
    ensures i == 0 ==> r == 0
  {
    if count == 0 then 0
    else
      var shifted := ((i * Pow2(count - 1)) % 256) as byte;
      assert i == 0 ==> shifted == 0;
      ReserveByteAsWritten(i, count - 1) | shifted
  }

  function Pow2(j: nat): nat
  {
    if j == 0 then 1 else 2 * Pow2(j - 1)
  }

  /**
   * With fewer than eight node-table blocks the partial byte is byte 0, so
   * `i << j` is `0 << j`: as written, the partial byte reserves none of
   * them, and its lowest clear bit is bit 0. The intended byte reserves
   * exactly them.
   */
  lemma PartialByteAsWritten(count: nat)
    requires 0 < count < 8
    ensures ReserveByteAsWritten(0, count) == 0
    ensures LowestClear([ReserveByteAsWritten(0, count)], 1, 0) == Some(0)
    ensures LowestClear([ReserveByte(count)], 1, 0) == Some(count)
  {
    var x := ReserveByte(count);
    assert x != 0xFF by {
      assert x & Bit(7) == 0;
    }
    assert x & Bit(count) == 0;
    assert LowestClearBit(0, 0) == 0;
  }
}
