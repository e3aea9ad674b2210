/** The block reader the ProDOS walker depends on: one 512-byte block for
    every 16-bit block number. */
module Blocks {
  import opened Util

  const BLOCK_SIZE := 512

  type BlockNo = x: int | 0 <= x < 0x10000

  type Block = s: seq<byte> | |s| == 512 witness seq(512, _ => 0)

  /** A block of zeros. */
  const ZERO_BLOCK: Block := seq(512, _ => 0)

  /** The disk as `disk.readSector (block)` sees it: one 512-byte block for every 16-bit block
      number. The empty disk address is block 0. */
  type Disk = s: seq<Block> | |s| == 0x10000 witness seq<Block>(0x10000, _ => ZERO_BLOCK)

  /** `disk.readSectors (list)`: the blocks' bytes concatenated in list order. */
  function ReadSectors(disk: Disk, blocks: seq<BlockNo>): (r: seq<byte>)
    ensures |r| == BLOCK_SIZE * |blocks|
  {
    if blocks == [] then []
    else ReadSectors(disk, blocks[..|blocks| - 1]) + disk[blocks[|blocks| - 1]]
  }

  /** Reading a list block by block: slice k of the result is block k. */
  lemma {:induction false} ReadSectorsSlice(disk: Disk, blocks: seq<BlockNo>, k: nat)
    requires k < |blocks|
    ensures |ReadSectors(disk, blocks)| == BLOCK_SIZE * |blocks|
    ensures ReadSectors(disk, blocks)[BLOCK_SIZE * k .. BLOCK_SIZE * (k + 1)] == disk[blocks[k]]
  {
    var n := |blocks|;
    var front := blocks[..n - 1];
    assert ReadSectors(disk, blocks) == ReadSectors(disk, front) + disk[blocks[n - 1]];
    if k < n - 1 {
      ReadSectorsSlice(disk, front, k);
      assert front[k] == blocks[k];
    }
  }

  /** `HexFormatter.unsignedShort (buffer, offset)`. */
  function UnsignedShort(buffer: seq<byte>, offset: nat): (r: BlockNo)
    requires offset + 1 < |buffer|
  {
    Word(buffer[offset], buffer[offset + 1])
  }
}
