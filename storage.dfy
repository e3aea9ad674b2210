/** The ProDOS storage tree (ProDOS 8 Technical Reference Manual, Appendix B,
    "File Organization"): what a file's key block resolves to for each storage
    type, stated as functions over the disk. The class FileEntry (module
    ProdosFile) resolves a file step by step and is proved to agree with them. */
module StorageTree {
  import opened Util
  import opened Blocks

  // Storage types, the high nibble of a directory entry's first byte.
  const SEEDLING := 1
  const SAPLING := 2
  const TREE := 3
  const PASCAL_ON_PROFILE := 4
  const GSOS_EXTENDED_FILE := 5
  const SUBDIRECTORY := 0xD

  /** Entries of an index block, and of a master index, are split: low bytes at 0..255, high bytes at 256..511. */
  const INDEX_ENTRIES := 256
  /** A master index has 128 usable slots. */
  const MASTER_SLOTS := 0x80

  /** The role a block is tagged with for the disk's sector map. */
  datatype SectorType = DataSector | IndexSector | MasterIndexSector | ExtendedKeySector

  function IndexWord(blk: Block, i: nat): BlockNo
    requires i < INDEX_ENTRIES
  {
    Word(blk[i], blk[i + 256])
  }

  /** All 256 split-byte entries of a block. */
  function IndexWords(blk: Block): (r: seq<BlockNo>)
    ensures |r| == INDEX_ENTRIES
    ensures forall i :: 0 <= i < INDEX_ENTRIES ==> r[i] == IndexWord(blk, i)
  {
    seq(INDEX_ENTRIES, i requires 0 <= i < INDEX_ENTRIES => IndexWord(blk, i))
  }

  /** What `readIndex (p)` yields: 256 zeros for a zero block number, the index block's entries otherwise. */
  function IndexEntries(disk: Disk, p: BlockNo): seq<BlockNo>
  {
    if p == 0 then seq(INDEX_ENTRIES, _ => 0) else IndexWords(disk[p])
  }

  /** Both bytes of slot j are zero. */
  predicate SlotEmpty(blk: Block, j: nat)
    requires j < INDEX_ENTRIES
  {
    blk[j] == 0 && blk[j + 256] == 0
  }

  /** The highest slot below n whose low or high byte is nonzero; -1 if there is none. */
  function Highest(blk: Block, n: nat): (h: int)
    requires n <= MASTER_SLOTS
    ensures -1 <= h < n
    ensures h >= 0 ==> !SlotEmpty(blk, h)
    ensures forall j :: h < j < n ==> SlotEmpty(blk, j)
  {
    if n == 0 then -1
    else if !SlotEmpty(blk, n - 1) then n - 1
    else Highest(blk, n - 1)
  }

  /** What `readMasterIndex (p)` yields: the slots 0..h, h the highest populated slot. */
  function MasterEntries(disk: Disk, p: BlockNo): seq<BlockNo>
  {
    IndexWords(disk[p])[..Highest(disk[p], MASTER_SLOTS) + 1]
  }

  /** The raw data-block list of a tree: the index blocks' entries concatenated. */
  function TreeBlocks(disk: Disk, indexBlocks: seq<BlockNo>): (r: seq<BlockNo>)
    ensures |r| == INDEX_ENTRIES * |indexBlocks|
  {
    if indexBlocks == [] then []
    else TreeBlocks(disk, indexBlocks[..|indexBlocks| - 1]) + IndexEntries(disk, indexBlocks[|indexBlocks| - 1])
  }

  /** The block list `addDataBlocks` builds before stripping; other storage types add nothing. */
  function RawBlocks(disk: Disk, storageType: int, key: BlockNo): seq<BlockNo>
  {
    if storageType == SEEDLING then [key]
    else if storageType == SAPLING then IndexEntries(disk, key)
    else if storageType == TREE then TreeBlocks(disk, MasterEntries(disk, key))
    else []
  }

  /** The list with its maximal run of trailing zeros removed. */
  function StripTrailingZeros(s: seq<BlockNo>): (r: seq<BlockNo>)
    ensures |r| <= |s| && r == s[..|r|]
    ensures forall i :: |r| <= i < |s| ==> s[i] == 0
    ensures r != [] ==> r[|r| - 1] != 0
  {
    if s != [] && s[|s| - 1] == 0 then StripTrailingZeros(s[..|s| - 1]) else s
  }

  /** The data blocks a file of this storage type and key block adds, interior zeros kept as the empty address. */
  function DataBlocks(disk: Disk, storageType: int, key: BlockNo): seq<BlockNo>
  {
    StripTrailingZeros(RawBlocks(disk, storageType, key))
  }

  /** The nonzero elements, in order. */
  function NonZero(s: seq<BlockNo>): (r: seq<BlockNo>)
    ensures |r| <= |s|
    ensures forall k :: 0 <= k < |r| ==> r[k] != 0 && r[k] in s
  {
    if s == [] then []
    else NonZero(s[..|s| - 1]) + (if s[|s| - 1] == 0 then [] else [s[|s| - 1]])
  }

  /** The index and master-index blocks `addDataBlocks` records, in visiting order. */
  function VisitedIndexBlocks(disk: Disk, storageType: int, key: BlockNo): seq<BlockNo>
  {
    if storageType == SAPLING then NonZero([key])
    else if storageType == TREE then [key] + NonZero(MasterEntries(disk, key))
    else []
  }

  /** Tags every nonzero block of s with t, in order; a later tag overwrites an earlier one. */
  ghost function Tag(m: map<BlockNo, SectorType>, s: seq<BlockNo>, t: SectorType): map<BlockNo, SectorType>
  {
    if s == [] then m
    else
      var m' := Tag(m, s[..|s| - 1], t);
      if s[|s| - 1] == 0 then m' else m'[s[|s| - 1] := t]
  }

  /** Tagging one more element of s: a nonzero one is overwritten with t. */
  lemma TagNext(m: map<BlockNo, SectorType>, s: seq<BlockNo>, i: nat, t: SectorType)
    requires i < |s|
    ensures Tag(m, s[..i + 1], t) == if s[i] == 0 then Tag(m, s[..i], t) else Tag(m, s[..i], t)[s[i] := t]
  {
    assert s[..i + 1][..i] == s[..i];
  }

  /** Visiting one more index block: its record and its tag extend those of the blocks before. */
  lemma IndexStep(a: seq<BlockNo>, m: map<BlockNo, SectorType>, s: seq<BlockNo>, i: nat, t: SectorType)
    requires i < |s|
    ensures (a + NonZero(s[..i])) + NonZero([s[i]]) == a + NonZero(s[..i + 1])
    ensures Tag(Tag(m, s[..i], t), [s[i]], t) == Tag(m, s[..i + 1], t)
  {
    assert s[..i + 1][..i] == s[..i];
    assert [s[i]][..0] == [];
  }

  /** The sector map after `addDataBlocks`: master index, then index blocks, then data blocks. */
  ghost function TagsAfter(m: map<BlockNo, SectorType>, disk: Disk, storageType: int, key: BlockNo): map<BlockNo, SectorType>
  {
    Tag(IndexTagsAfter(m, disk, storageType, key), DataBlocks(disk, storageType, key), DataSector)
  }

  /** The sector map once the master index and the index blocks are tagged. */
  ghost function IndexTagsAfter(m: map<BlockNo, SectorType>, disk: Disk, storageType: int, key: BlockNo): map<BlockNo, SectorType>
  {
    var withMaster := if storageType == TREE then m[key := MasterIndexSector] else m;
    if storageType == SAPLING then Tag(withMaster, [key], IndexSector)
    else if storageType == TREE then Tag(withMaster, MasterEntries(disk, key), IndexSector)
    else withMaster
  }

  /** The blocks of a subdirectory: keyPtr, then each block named by the word at offset 2 of the
      previous one, up to the first zero. A chain that never reaches zero makes the original walk
      loop forever; the fuel bounds the model's walk. */
  function DirectoryChain(disk: Disk, block: BlockNo, fuel: nat): seq<BlockNo>
    decreases fuel
  {
    if fuel == 0 then []
    else
      var next := NextBlock(disk, block);
      if next == 0 then [block] else [block] + DirectoryChain(disk, next, fuel - 1)
  }

  /** The subdirectory walk as the original's do-while performs it: each block visited is appended
      to the list accumulated so far. */
  function WalkFrom(disk: Disk, walked: seq<BlockNo>, block: BlockNo, fuel: nat): seq<BlockNo>
    decreases fuel
  {
    if fuel == 0 then walked
    else
      var next := NextBlock(disk, block);
      if next == 0 then walked + [block] else WalkFrom(disk, walked + [block], next, fuel - 1)
  }

  /** Accumulating the walk onto a list appends the chain to that list. */
  lemma {:induction false} WalkFromChain(disk: Disk, walked: seq<BlockNo>, block: BlockNo, fuel: nat)
    ensures WalkFrom(disk, walked, block, fuel) == walked + DirectoryChain(disk, block, fuel)
    decreases fuel
  {
    if fuel == 0 {
      assert walked + [] == walked;
    } else {
      var next := NextBlock(disk, block);
      if next != 0 {
        WalkFromChain(disk, walked + [block], next, fuel - 1);
        assert (walked + [block]) + DirectoryChain(disk, next, fuel - 1)
            == walked + ([block] + DirectoryChain(disk, next, fuel - 1));
      }
    }
  }

  /** Payload bytes of one directory block: 13 entries of 39 bytes after the 4-byte link header. */
  const BLOCK_ENTRY_SIZE := 507

  /** A subdirectory's buffer: each block's entries, headers stripped. */
  function SubdirectoryBuffer(disk: Disk, blocks: seq<BlockNo>): (r: seq<byte>)
    ensures |r| == BLOCK_ENTRY_SIZE * |blocks|
  {
    if blocks == [] then []
    else SubdirectoryBuffer(disk, blocks[..|blocks| - 1])
         + disk[blocks[|blocks| - 1]][4..4 + BLOCK_ENTRY_SIZE]
  }

  // ---------------------------------------------------------------------------------------------
  // Properties of the resolution.

  /** `readIndex (p)` with p != 0: 256 entries, entry i = buf[i] | buf[i + 256] << 8; 256 zeros for p == 0. */
  lemma IndexEntriesAt(disk: Disk, p: BlockNo, i: nat)
    requires i < INDEX_ENTRIES
    ensures |IndexEntries(disk, p)| == INDEX_ENTRIES
    ensures IndexEntries(disk, p)[i] == if p == 0 then 0 else disk[p][i] as int + 256 * disk[p][i + 256] as int
  {
  }

  /** `readMasterIndex`: at most 128 entries, empty iff all 128 slots are zero, otherwise ending at
      the highest populated slot; entry i is the split-byte word of slot i. */
  lemma {:induction false} MasterEntriesShape(disk: Disk, p: BlockNo)
    ensures |MasterEntries(disk, p)| <= MASTER_SLOTS
    ensures MasterEntries(disk, p) == [] <==>
              forall j :: 0 <= j < MASTER_SLOTS ==> SlotEmpty(disk[p], j)
    ensures forall i :: 0 <= i < |MasterEntries(disk, p)| ==> MasterEntries(disk, p)[i] == IndexWord(disk[p], i)
    ensures MasterEntries(disk, p) != [] ==> MasterEntries(disk, p)[|MasterEntries(disk, p)| - 1] != 0
  {
    var blk := disk[p];
    var h := Highest(blk, MASTER_SLOTS);
    if h >= 0 {
      assert IndexWord(blk, h) != 0;
    }
  }

  /** A master index whose slot h is populated and whose later slots are zero yields exactly h + 1
      entries (the first 3 of 128 slots populated gives 3 entries, not 128). */
  lemma {:induction false} MasterEntriesCount(disk: Disk, p: BlockNo, h: nat)
    requires h < MASTER_SLOTS
    requires !SlotEmpty(disk[p], h)
    requires forall j :: h < j < MASTER_SLOTS ==> SlotEmpty(disk[p], j)
    ensures |MasterEntries(disk, p)| == h + 1
  {
  }

  /** Entry i of the m-th index block sits at position 256 * m + i of a tree's raw block list. */
  lemma {:induction false} TreeBlocksAt(disk: Disk, indexBlocks: seq<BlockNo>, m: nat, i: nat)
    requires m < |indexBlocks| && i < INDEX_ENTRIES
    ensures TreeBlocks(disk, indexBlocks)[INDEX_ENTRIES * m + i] == IndexEntries(disk, indexBlocks[m])[i]
  {
    var n := |indexBlocks|;
    var front := indexBlocks[..n - 1];
    assert TreeBlocks(disk, indexBlocks) == TreeBlocks(disk, front) + IndexEntries(disk, indexBlocks[n - 1]);
    if m < n - 1 {
      TreeBlocksAt(disk, front, m, i);
      assert front[m] == indexBlocks[m];
    }
  }

  /** The capacity bounds: a seedling adds at most one block, a sapling at most 256, a tree at most
      128 x 256; only a trailing run of zeros is removed, so the last block kept is nonzero. */
  lemma DataBlocksBounds(disk: Disk, storageType: int, key: BlockNo)
    ensures storageType == SEEDLING ==> |DataBlocks(disk, storageType, key)| <= 1
    ensures storageType == SAPLING ==> |DataBlocks(disk, storageType, key)| <= INDEX_ENTRIES
    ensures storageType == TREE ==> |DataBlocks(disk, storageType, key)| <= MASTER_SLOTS * INDEX_ENTRIES
    ensures storageType !in {SEEDLING, SAPLING, TREE} ==> DataBlocks(disk, storageType, key) == []
    ensures DataBlocks(disk, storageType, key) != [] ==>
              DataBlocks(disk, storageType, key)[|DataBlocks(disk, storageType, key)| - 1] != 0
  {
    if storageType == TREE {
      MasterEntriesShape(disk, key);
    }
  }

  /** A fully populated file loses nothing: when the raw list ends in a nonzero block (a sapling
      whose 256 entries are all in use, a tree whose last used index block is full), the data-block
      list is the raw list itself, 256 entries for the sapling and 256 per index block for the tree. */
  lemma FullyPopulated(disk: Disk, storageType: int, key: BlockNo)
    requires RawBlocks(disk, storageType, key) != []
    requires RawBlocks(disk, storageType, key)[|RawBlocks(disk, storageType, key)| - 1] != 0
    ensures DataBlocks(disk, storageType, key) == RawBlocks(disk, storageType, key)
    ensures storageType == SAPLING ==> |DataBlocks(disk, storageType, key)| == INDEX_ENTRIES
    ensures storageType == TREE ==>
              |DataBlocks(disk, storageType, key)| == INDEX_ENTRIES * |MasterEntries(disk, key)|
  {
  }

  /** Tagging changes only nonzero blocks of the list, and each of them to the given role. */
  lemma {:induction false} TagChangesOnlyListed(m: map<BlockNo, SectorType>, s: seq<BlockNo>, t: SectorType, b: BlockNo)
    ensures b in m ==> b in Tag(m, s, t)
    ensures b in Tag(m, s, t) && (b !in m || Tag(m, s, t)[b] != m[b]) ==>
              b != 0 && b in s && Tag(m, s, t)[b] == t
    ensures b != 0 && b in s ==> b in Tag(m, s, t) && Tag(m, s, t)[b] == t
  {
    if s != [] {
      var front := s[..|s| - 1];
      TagChangesOnlyListed(m, front, t, b);
      assert s == front + [s[|s| - 1]];
    }
  }

  /** The word at offset 2 of a directory block: the next block of the chain. */
  function NextBlock(disk: Disk, block: BlockNo): BlockNo
  {
    UnsignedShort(disk[block], 2)
  }

  /** Block k + 1 of the walk is the nonzero successor of block k. */
  ghost predicate LinkedAt(disk: Disk, r: seq<BlockNo>, k: nat)
    requires k + 1 < |r|
  {
    r[k + 1] == NextBlock(disk, r[k]) && r[k + 1] != 0
  }

  /** One step of the walk: the block itself, then the walk from its nonzero successor. */
  lemma DirectoryChainStep(disk: Disk, block: BlockNo, fuel: nat)
    requires fuel > 0
    ensures NextBlock(disk, block) == 0 ==> DirectoryChain(disk, block, fuel) == [block]
    ensures NextBlock(disk, block) != 0 ==>
              DirectoryChain(disk, block, fuel) == [block] + DirectoryChain(disk, NextBlock(disk, block), fuel - 1)
  {
  }

  /** The walk lists the key block first. */
  lemma DirectoryChainStarts(disk: Disk, block: BlockNo, fuel: nat)
    requires fuel > 0
    ensures |DirectoryChain(disk, block, fuel)| > 0 && DirectoryChain(disk, block, fuel)[0] == block
  {
  }

  /** Each block of the subdirectory walk after the first is the nonzero word at offset 2 of the
      block before it. */
  lemma {:induction false} DirectoryChainLinked(disk: Disk, block: BlockNo, fuel: nat, k: nat)
    requires k + 1 < |DirectoryChain(disk, block, fuel)|
    ensures LinkedAt(disk, DirectoryChain(disk, block, fuel), k)
    decreases fuel
  {
    var next := NextBlock(disk, block);
    assert DirectoryChain(disk, block, fuel) == [block] + DirectoryChain(disk, next, fuel - 1);
    if k > 0 {
      DirectoryChainLinked(disk, next, fuel - 1, k - 1);
    }
  }

  /** The walk stops at the first block whose next-block word is zero, unless the fuel runs out first. */
  lemma {:induction false} DirectoryChainEnds(disk: Disk, block: BlockNo, fuel: nat)
    requires fuel > 0
    ensures |DirectoryChain(disk, block, fuel)| == fuel ||
            NextBlock(disk, DirectoryChain(disk, block, fuel)[|DirectoryChain(disk, block, fuel)| - 1]) == 0
    decreases fuel
  {
    var next := NextBlock(disk, block);
    var r := DirectoryChain(disk, block, fuel);
    if next == 0 {
      assert r == [block];
    } else if fuel == 1 {
      assert r == [block];
    } else {
      var rest := DirectoryChain(disk, next, fuel - 1);
      assert r == [block] + rest;
      DirectoryChainEnds(disk, next, fuel - 1);
      assert r[|r| - 1] == rest[|rest| - 1];
    }
  }

  /** Slice k of a subdirectory's buffer is block k from byte 4 on. */
  lemma {:induction false} SubdirectoryBufferSlice(disk: Disk, blocks: seq<BlockNo>, k: nat)
    requires k < |blocks|
    ensures SubdirectoryBuffer(disk, blocks)[BLOCK_ENTRY_SIZE * k .. BLOCK_ENTRY_SIZE * (k + 1)]
            == disk[blocks[k]][4..4 + BLOCK_ENTRY_SIZE]
  {
    var n := |blocks|;
    var front := blocks[..n - 1];
    assert SubdirectoryBuffer(disk, blocks)
           == SubdirectoryBuffer(disk, front) + disk[blocks[n - 1]][4..4 + BLOCK_ENTRY_SIZE];
    if k < n - 1 {
      SubdirectoryBufferSlice(disk, front, k);
      assert front[k] == blocks[k];
    }
  }
}
