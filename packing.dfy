/**
 * Packing a tile's byte grid into its bit block: one bit per cell, cell pos
 * at stream bit pos, in a zero-filled buffer of ceil(n * n / 8) bytes; and
 * the reverse reading, one bit per cell back into a byte grid.
 */
module Packing {
  import opened BitStream
  import opened Layout
  import opened Raster
  import opened Rings

  /** The bit cell pos contributes: set for a non-zero flag, clear past the last cell. */
  predicate CellBit(cells: seq<byte>, pos: nat)
  {
    pos < |cells| && cells[pos] != 0
  }

  /** Byte b of the bit block, built from its first k bits. */
  function PackedByte(cells: seq<byte>, b: nat, k: nat): (x: byte)
    requires k <= 8
    ensures forall m :: 0 <= m < k ==> BitOf(x, m) == CellBit(cells, 8 * b + m)
    ensures forall m :: k <= m < 8 ==> !BitOf(x, m)
  {
    if k == 0 then 0 else WithBit(PackedByte(cells, b, k - 1), k - 1, CellBit(cells, 8 * b + k - 1))
  }

  /**
   * The bit block of a byte grid: ceil(|cells| / 8) bytes; bit pos is set
   * exactly when cell pos is non-zero, and the bits past the last cell are
   * clear.
   */
  function PackedGrid(cells: seq<byte>): (bits: seq<byte>)
    ensures |bits| == PackedSize(|cells|)
    ensures forall pos :: 0 <= pos < |cells| ==> GetBit(bits, pos) == (cells[pos] != 0)
    ensures forall pos :: |cells| <= pos < 8 * |bits| ==> !GetBit(bits, pos)
  {
    var bits := seq(PackedSize(|cells|), b requires 0 <= b => PackedByte(cells, b, 8));
    assert forall pos :: 0 <= pos < 8 * |bits| ==> GetBit(bits, pos) == CellBit(cells, pos) by {
      forall pos | 0 <= pos < 8 * |bits|
        ensures GetBit(bits, pos) == CellBit(cells, pos)
      {
        assert 8 * (pos / 8) + pos % 8 == pos;
      }
    }
    bits
  }

  /** bit_pack(buf, pos, 1, v) on a buffer held in an array. */
  method BitPackOne(buf: array<byte>, pos: nat, v: nat)
    requires pos < 8 * buf.Length && v < 2
    modifies buf
    ensures buf[..] == BitPack(old(buf[..]), pos, 1, v)
  {
    ghost var before := buf[..];
    assert BitPack(before, pos, 1, v) == SetBit(before, pos, v >= 1);
    buf[pos / 8] := WithBit(buf[pos / 8], pos % 8, v >= 1);
  }

  /**
   * The copy of the byte grid into the bit block: a zeroed buffer of
   * ceil(n * n / 8) bytes, then one bit_pack of width 1 per cell, 1 for a
   * non-zero flag and 0 otherwise.
   */
  method PackBlock(block: array<byte>, n: nat) returns (bits: seq<byte>)
    requires block.Length == n * n
    ensures |bits| == PackedSize(n * n)
    ensures forall pos :: 0 <= pos < n * n ==> GetBit(bits, pos) == (block[pos] != 0)
    ensures forall pos :: n * n <= pos < 8 * |bits| ==> !GetBit(bits, pos)
    ensures bits == PackedGrid(block[..])
  {
    var size := (n * n) / 8;
    if (n * n) % 8 != 0 {
      size := size + 1;
    }
    var bitBlock := new byte[size](_ => 0);
    var pos := 0;
    while pos < block.Length
      invariant 0 <= pos <= block.Length
      invariant forall q :: 0 <= q < 8 * size ==> GetBit(bitBlock[..], q) == (q < pos && block[q] != 0)
    {
      if block[pos] != 0 {
        BitPackOne(bitBlock, pos, 1);
      } else {
        BitPackOne(bitBlock, pos, 0);
      }
      pos := pos + 1;
    }
    bits := bitBlock[..];
    BuffersFromBits(bits, PackedGrid(block[..]));
  }

  /** The commented-out check loop: cell pos read back as bit_unpack(bits, pos, 1). */
  function UnpackGrid(bits: seq<byte>, count: nat): (cells: seq<byte>)
    requires count <= 8 * |bits|
    ensures |cells| == count
    ensures forall pos :: 0 <= pos < count ==> cells[pos] == if GetBit(bits, pos) then 1 else 0
  {
    seq(count, pos requires 0 <= pos < count => if BitUnpack(bits, pos, 1) == 1 then 1 else 0)
  }

  /** Unpacking the bit block gives back every cell as 0 or 1: non-zero flags come back as 1. */
  lemma UnpackPackedGrid(cells: seq<byte>)
    ensures UnpackGrid(PackedGrid(cells), |cells|) == seq(|cells|, pos requires 0 <= pos < |cells| => if cells[pos] != 0 then 1 else 0)
  {
  }

  /** A grid of 0/1 flags survives the round trip unchanged. */
  lemma UnpackPackedFlags(cells: seq<byte>)
    requires forall pos :: 0 <= pos < |cells| ==> cells[pos] == 0 || cells[pos] == 1
    ensures UnpackGrid(PackedGrid(cells), |cells|) == cells
  {
    UnpackPackedGrid(cells);
  }

  /** A rasterised tile holds only Water and Land, so its bit block gives it back exactly. */
  lemma RasterisedTileRoundTrip(rings: seq<Ring>, inside: InsideTest, n: nat)
    ensures UnpackGrid(PackedGrid(Grid(rings, inside, n)), n * n) == Grid(rings, inside, n)
  {
    UnpackPackedFlags(Grid(rings, inside, n));
  }
}
