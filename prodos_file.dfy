/** A ProDOS directory entry (class FileEntry) on its disk (class ProdosDisk): the constructor
    resolves the entry's storage tree into index and data blocks and tags their sector types; the
    remaining methods assemble the file's buffers and choose the decoder that shows it. */
module ProdosFile {
  import opened Util
  import opened Blocks
  import opened StorageTree
  import opened RandomAccessText
  import opened Decoders

  /** A directory entry is 39 bytes. */
  const ENTRY_LENGTH := 0x27

  /** The subdirectory walk follows at most this many blocks (a chain without a cycle has fewer). */
  const DIRECTORY_FUEL := 0x10000

  /** `HexFormatter.intValue (b0, b1, b2)`: a 3-byte little-endian value. */
  function Triple(lo: byte, mid: byte, hi: byte): (r: nat)
    ensures r < 0x100_0000
    ensures r % 256 == lo && (r / 256) % 256 == mid && r / 65536 == hi
  {
    lo + 256 * mid + 65536 * hi
  }

  // ---------------------------------------------------------------------------------------------
  // What the constructor resolves an entry to.

  /** The two mini-entries of an extended key block: the storage type (low nibble of the first
      byte) and key block of the data fork at offset 0 and of the resource fork at offset 256. */
  function Forks(blk: Block): (r: seq<(int, BlockNo)>)
    ensures |r| == 2
    ensures forall k :: 0 <= k < 2 ==> r[k].0 == blk[256 * k] % 16 && 0 <= r[k].0 < 16
  {
    [(blk[0] % 16, UnsignedShort(blk, 1)), (blk[256] % 16, UnsignedShort(blk, 257))]
  }

  /** The data blocks fork k (0 the data fork, 1 the resource fork) of an extended key block adds. */
  function ForkData(disk: Disk, key: BlockNo, k: nat): seq<BlockNo>
    requires k < 2
  {
    var f := Forks(disk[key])[k];
    DataBlocks(disk, f.0, f.1)
  }

  /** The index blocks fork k of an extended key block records. */
  function ForkIndex(disk: Disk, key: BlockNo, k: nat): seq<BlockNo>
    requires k < 2
  {
    var f := Forks(disk[key])[k];
    VisitedIndexBlocks(disk, f.0, f.1)
  }

  /** The sector map after fork k of an extended key block is resolved. */
  ghost function ForkTags(m: map<BlockNo, SectorType>, disk: Disk, key: BlockNo, k: nat): map<BlockNo, SectorType>
    requires k < 2
  {
    var f := Forks(disk[key])[k];
    TagsAfter(m, disk, f.0, f.1)
  }

  predicate IsIndexed(storageType: int)
  {
    storageType == SEEDLING || storageType == SAPLING || storageType == TREE
  }

  /** The data blocks of an entry of this storage type and key block. */
  function EntryDataBlocks(disk: Disk, storageType: int, keyPtr: BlockNo): seq<BlockNo>
  {
    if IsIndexed(storageType) then DataBlocks(disk, storageType, keyPtr)
    else if storageType == GSOS_EXTENDED_FILE then ForkData(disk, keyPtr, 0) + ForkData(disk, keyPtr, 1)
    else if storageType == SUBDIRECTORY then DirectoryChain(disk, keyPtr, DIRECTORY_FUEL)
    else []
  }

  /** The index blocks (master index, index blocks, extended key block) of such an entry. */
  function EntryIndexBlocks(disk: Disk, storageType: int, keyPtr: BlockNo): seq<BlockNo>
  {
    if IsIndexed(storageType) then VisitedIndexBlocks(disk, storageType, keyPtr)
    else if storageType == GSOS_EXTENDED_FILE then [keyPtr] + ForkIndex(disk, keyPtr, 0) + ForkIndex(disk, keyPtr, 1)
    else if storageType == PASCAL_ON_PROFILE then [keyPtr]
    else []
  }

  /** The sector map after such an entry is resolved. */
  ghost function EntryTags(m: map<BlockNo, SectorType>, disk: Disk, storageType: int, keyPtr: BlockNo): map<BlockNo, SectorType>
  {
    if IsIndexed(storageType) then TagsAfter(m, disk, storageType, keyPtr)
    else if storageType == GSOS_EXTENDED_FILE then ForkTags(ForkTags(m[keyPtr := ExtendedKeySector], disk, keyPtr, 0), disk, keyPtr, 1)
    else m
  }

  // ---------------------------------------------------------------------------------------------
  // Buffers.

  /** `getBuffer ()`: the data blocks read in order; a subdirectory's blocks without their 4-byte
      headers; one empty block for an unknown storage type. */
  function FileBuffer(disk: Disk, storageType: int, dataBlocks: seq<BlockNo>): seq<byte>
  {
    if IsIndexed(storageType) || storageType == GSOS_EXTENDED_FILE || storageType == PASCAL_ON_PROFILE then
      ReadSectors(disk, dataBlocks)
    else if storageType == SUBDIRECTORY then SubdirectoryBuffer(disk, dataBlocks)
    else Zeros(BLOCK_SIZE)
  }

  /** `getExactBuffer (buffer)`: the buffer sized to the end of file, zero-padded when short; a
      buffer of exactly the end of file, or any buffer at least a block long when the end of file
      is 512, is kept as it is. */
  function ExactBuffer(buffer: seq<byte>, endOfFile: nat): (r: seq<byte>)
    ensures |buffer| < endOfFile ==>
              |r| == endOfFile && r[..|buffer|] == buffer && forall i :: |buffer| <= i < endOfFile ==> r[i] == 0
    ensures |buffer| == endOfFile || (endOfFile == 512 && |buffer| >= 512) ==> r == buffer
    ensures |buffer| > endOfFile && endOfFile != 512 ==> |r| == endOfFile && buffer[..endOfFile] == r
  {
    if |buffer| < endOfFile then buffer + Zeros(endOfFile - |buffer|)
    else if |buffer| == endOfFile || endOfFile == 512 then buffer
    else buffer[..endOfFile]
  }

  /** The buffer cut to n bytes when longer (`getSeedlingTextFile` does not pad). */
  function Truncated(buffer: seq<byte>, n: nat): (r: seq<byte>)
    ensures |r| == if n < |buffer| then n else |buffer|
    ensures r == buffer[..|r|]
  {
    if n < |buffer| then buffer[..n] else buffer
  }

  /** A random-access text file with one run and a name ending in ".S" is Merlin source; any other
      is shown as a list of runs. */
  function TextSource(name: string, buffers: seq<TextBuffer>, auxType: int, endOfFile: int): (r: DataSource)
    ensures r.MerlinSource? <==> |buffers| == 1 && EndsWith(name, ".S")
    ensures r.MerlinSource? ==> r == MerlinSource(name, buffers[0].buffer, auxType, endOfFile)
    ensures !r.MerlinSource? ==> r == RandomAccessTextFile(name, buffers, auxType, endOfFile)
  {
    if |buffers| == 1 && EndsWith(name, ".S") then MerlinSource(name, buffers[0].buffer, auxType, endOfFile)
    else RandomAccessTextFile(name, buffers, auxType, endOfFile)
  }

  // ---------------------------------------------------------------------------------------------

  /** The disk: its blocks, the volume directory header's block counts, and the sector-type map
      that entries fill in as they resolve. */
  class ProdosDisk {
    const blocks: Disk
    const totalBlocks: int
    const freeBlocks: int
    const usedBlocks: int
    ghost var sectorTypes: map<BlockNo, SectorType>

    constructor (blocks: Disk, totalBlocks: int, freeBlocks: int, usedBlocks: int)
      ensures this.blocks == blocks && this.totalBlocks == totalBlocks
      ensures this.freeBlocks == freeBlocks && this.usedBlocks == usedBlocks
      ensures sectorTypes == map[]
    {
      this.blocks := blocks;
      this.totalBlocks := totalBlocks;
      this.freeBlocks := freeBlocks;
      this.usedBlocks := usedBlocks;
      sectorTypes := map[];
    }

    /** `setSectorType (block, type)`. */
    ghost method SetSectorType(block: BlockNo, t: SectorType)
      modifies this`sectorTypes
      ensures sectorTypes == old(sectorTypes)[block := t]
    {
      sectorTypes := sectorTypes[block := t];
    }
  }

  /** A file entry of a ProDOS directory. The name and storage type are parsed by the common
      catalog-entry code and passed in. */
  class FileEntry {
    const parentDisk: ProdosDisk
    /** The blocks of the parent disk, which every read goes through. */
    const disk: Disk
    const name: string
    const storageType: int
    const fileType: byte
    const keyPtr: BlockNo
    const blocksUsed: BlockNo
    const endOfFile: nat
    const auxType: BlockNo
    const catalogBlock: BlockNo
    var masterIndexBlock: Option<BlockNo>
    var indexBlocks: seq<BlockNo>
    var dataBlocks: seq<BlockNo>
    var file: Option<DataSource>
    var link: FileEntry?

    /** Parses the entry and resolves its storage tree. */
    constructor (fDisk: ProdosDisk, entryBuffer: seq<byte>, parentBlock: BlockNo, name: string, storageType: int)
      requires |entryBuffer| >= ENTRY_LENGTH
      modifies fDisk`sectorTypes
      ensures parentDisk == fDisk && disk == fDisk.blocks && this.name == name && this.storageType == storageType
      ensures catalogBlock == parentBlock
      ensures fileType == entryBuffer[0x10] && keyPtr == UnsignedShort(entryBuffer, 0x11)
      ensures blocksUsed == UnsignedShort(entryBuffer, 0x13) && auxType == UnsignedShort(entryBuffer, 0x1F)
      ensures endOfFile == Triple(entryBuffer[21], entryBuffer[22], entryBuffer[23])
      ensures masterIndexBlock == if storageType == TREE then Some(keyPtr) else None
      ensures dataBlocks == EntryDataBlocks(fDisk.blocks, storageType, keyPtr)
      ensures indexBlocks == EntryIndexBlocks(fDisk.blocks, storageType, keyPtr)
      ensures fDisk.sectorTypes == EntryTags(old(fDisk.sectorTypes), fDisk.blocks, storageType, keyPtr)
      ensures file == None && link == null
    {
      parentDisk := fDisk;
      disk := fDisk.blocks;
      this.name := name;
      this.storageType := storageType;
      catalogBlock := parentBlock;
      fileType := entryBuffer[0x10];
      keyPtr := UnsignedShort(entryBuffer, 0x11);
      blocksUsed := UnsignedShort(entryBuffer, 0x13);
      endOfFile := Triple(entryBuffer[21], entryBuffer[22], entryBuffer[23]);
      auxType := UnsignedShort(entryBuffer, 0x1F);
      masterIndexBlock := None;
      indexBlocks := [];
      dataBlocks := [];
      file := None;
      link := null;
      new;
      ResolveStorage();
    }

    /** The storage-type switch of the constructor, run on an entry with no blocks yet. The GEOS
        branches of the sapling and tree cases are not modelled. */
    method ResolveStorage()
      requires dataBlocks == [] && indexBlocks == [] && masterIndexBlock == None
      modifies this`dataBlocks, this`indexBlocks, this`masterIndexBlock, parentDisk`sectorTypes
      ensures masterIndexBlock == if storageType == TREE then Some(keyPtr) else None
      ensures dataBlocks == EntryDataBlocks(disk, storageType, keyPtr)
      ensures indexBlocks == EntryIndexBlocks(disk, storageType, keyPtr)
      ensures parentDisk.sectorTypes == EntryTags(old(parentDisk.sectorTypes), disk, storageType, keyPtr)
    {
      if storageType == SEEDLING || storageType == SAPLING {
        AddDataBlocks(storageType, keyPtr);
        EmptyAppend(DataBlocks(disk, storageType, keyPtr));
        EmptyAppend(VisitedIndexBlocks(disk, storageType, keyPtr));
      } else if storageType == TREE {
        masterIndexBlock := Some(keyPtr);
        AddDataBlocks(storageType, keyPtr);
        EmptyAppend(DataBlocks(disk, storageType, keyPtr));
        EmptyAppend(VisitedIndexBlocks(disk, storageType, keyPtr));
      } else if storageType == GSOS_EXTENDED_FILE {
        ReadForks();
        EmptyAppend(ForkData(disk, keyPtr, 0));
        EmptyAppend([keyPtr]);
      } else if storageType == SUBDIRECTORY {
        WalkDirectory();
        EmptyAppend(DirectoryChain(disk, keyPtr, DIRECTORY_FUEL));
      } else if storageType == PASCAL_ON_PROFILE {
        indexBlocks := indexBlocks + [keyPtr];
      }
    }

    /** The subdirectory case of the constructor: the do-while walk along the next-block links. */
    method WalkDirectory()
      modifies this`dataBlocks
      ensures dataBlocks == old(dataBlocks) + DirectoryChain(disk, keyPtr, DIRECTORY_FUEL)
    {
      var block := keyPtr;
      var fuel: nat := DIRECTORY_FUEL;
      WalkFromChain(disk, dataBlocks, keyPtr, DIRECTORY_FUEL);
      while true
        invariant WalkFrom(disk, dataBlocks, block, fuel) == old(dataBlocks) + DirectoryChain(disk, keyPtr, DIRECTORY_FUEL)
        decreases fuel
      {
        if fuel == 0 {
          break;
        }
        dataBlocks := dataBlocks + [block];
        var buffer := disk[block];
        block := UnsignedShort(buffer, 2);
        fuel := fuel - 1;
        if block == 0 {
          break;
        }
      }
    }

    /** `readForks ()`: tags the extended key block, records it, and resolves the data fork and
        then the resource fork. */
    method ReadForks()
      modifies this`dataBlocks, this`indexBlocks, parentDisk`sectorTypes
      ensures dataBlocks == old(dataBlocks) + ForkData(disk, keyPtr, 0) + ForkData(disk, keyPtr, 1)
      ensures indexBlocks == old(indexBlocks) + [keyPtr] + ForkIndex(disk, keyPtr, 0) + ForkIndex(disk, keyPtr, 1)
      ensures parentDisk.sectorTypes ==
              ForkTags(ForkTags(old(parentDisk.sectorTypes)[keyPtr := ExtendedKeySector], disk, keyPtr, 0), disk, keyPtr, 1)
    {
      parentDisk.SetSectorType(keyPtr, ExtendedKeySector);
      ghost var tagged := parentDisk.sectorTypes;
      indexBlocks := indexBlocks + [keyPtr];
      ghost var recorded := indexBlocks;
      var buffer2 := disk[keyPtr];
      var i := 0;
      while i < 512
        invariant i == 0 || i == 256 || i == 512
        invariant i == 0 ==> dataBlocks == old(dataBlocks) && indexBlocks == recorded && parentDisk.sectorTypes == tagged
        invariant i == 256 ==> dataBlocks == old(dataBlocks) + ForkData(disk, keyPtr, 0)
                               && indexBlocks == recorded + ForkIndex(disk, keyPtr, 0)
                               && parentDisk.sectorTypes == ForkTags(tagged, disk, keyPtr, 0)
        invariant i == 512 ==> dataBlocks == old(dataBlocks) + ForkData(disk, keyPtr, 0) + ForkData(disk, keyPtr, 1)
                               && indexBlocks == recorded + ForkIndex(disk, keyPtr, 0) + ForkIndex(disk, keyPtr, 1)
                               && parentDisk.sectorTypes == ForkTags(ForkTags(tagged, disk, keyPtr, 0), disk, keyPtr, 1)
        decreases 512 - i
      {
        var storageType := buffer2[i] % 16;
        var keyBlock := UnsignedShort(buffer2, i + 1);
        assert Forks(buffer2)[i / 256] == (storageType, keyBlock);
        AddDataBlocks(storageType, keyBlock);
        i := i + 256;
      }
    }

    /** `addDataBlocks (storageType, keyPtr)`: collects the raw block list, strips its trailing zeros
        and appends what is left, tagging the nonzero blocks as data. */
    method AddDataBlocks(storageType: int, keyPtr: BlockNo)
      modifies this`dataBlocks, this`indexBlocks, parentDisk`sectorTypes
      ensures dataBlocks == old(dataBlocks) + DataBlocks(disk, storageType, keyPtr)
      ensures indexBlocks == old(indexBlocks) + VisitedIndexBlocks(disk, storageType, keyPtr)
      ensures parentDisk.sectorTypes == TagsAfter(old(parentDisk.sectorTypes), disk, storageType, keyPtr)
    {
      var blocks := CollectBlocks(storageType, keyPtr);
      while |blocks| > 0 && blocks[|blocks| - 1] == 0
        invariant StripTrailingZeros(blocks) == DataBlocks(disk, storageType, keyPtr)
        invariant dataBlocks == old(dataBlocks)
        invariant indexBlocks == old(indexBlocks) + VisitedIndexBlocks(disk, storageType, keyPtr)
        invariant parentDisk.sectorTypes == IndexTagsAfter(old(parentDisk.sectorTypes), disk, storageType, keyPtr)
      {
        blocks := blocks[..|blocks| - 1];
      }
      AppendDataBlocks(blocks);
    }

    /** The switch of `addDataBlocks`: the block list before stripping, with the index blocks read
        on the way recorded and tagged. */
    method CollectBlocks(storageType: int, keyPtr: BlockNo) returns (blocks: seq<BlockNo>)
      modifies this`indexBlocks, parentDisk`sectorTypes
      ensures blocks == RawBlocks(disk, storageType, keyPtr)
      ensures indexBlocks == old(indexBlocks) + VisitedIndexBlocks(disk, storageType, keyPtr)
      ensures parentDisk.sectorTypes == IndexTagsAfter(old(parentDisk.sectorTypes), disk, storageType, keyPtr)
    {
      blocks := [];
      if storageType == SEEDLING {
        blocks := [keyPtr];
      } else if storageType == SAPLING {
        blocks := ReadIndex(keyPtr);
      } else if storageType == TREE {
        blocks := ReadTree(keyPtr);
      }
    }

    /** The tree case of `addDataBlocks`: the master index, then each index block it lists. */
    method ReadTree(keyPtr: BlockNo) returns (blocks: seq<BlockNo>)
      modifies this`indexBlocks, parentDisk`sectorTypes
      ensures blocks == TreeBlocks(disk, MasterEntries(disk, keyPtr))
      ensures indexBlocks == old(indexBlocks) + [keyPtr] + NonZero(MasterEntries(disk, keyPtr))
      ensures parentDisk.sectorTypes ==
              Tag(old(parentDisk.sectorTypes)[keyPtr := MasterIndexSector], MasterEntries(disk, keyPtr), IndexSector)
    {
      var masters := ReadMasterIndex(keyPtr);
      ghost var recorded := indexBlocks;
      ghost var tagged := parentDisk.sectorTypes;
      blocks := [];
      for i := 0 to |masters|
        invariant blocks == TreeBlocks(disk, masters[..i])
        invariant indexBlocks == recorded + NonZero(masters[..i])
        invariant parentDisk.sectorTypes == Tag(tagged, masters[..i], IndexSector)
      {
        IndexStep(recorded, tagged, masters, i, IndexSector);
        var entries := ReadIndex(masters[i]);
        blocks := blocks + entries;
        assert masters[..i + 1][..i] == masters[..i];
      }
      assert masters[..|masters|] == masters;
    }

    /** The last loop of `addDataBlocks`: every block joins the data blocks, and a nonzero one is
        tagged as data. */
    method AppendDataBlocks(blocks: seq<BlockNo>)
      modifies this`dataBlocks, parentDisk`sectorTypes
      ensures dataBlocks == old(dataBlocks) + blocks
      ensures parentDisk.sectorTypes == Tag(old(parentDisk.sectorTypes), blocks, DataSector)
    {
      for i := 0 to |blocks|
        invariant dataBlocks == old(dataBlocks) + blocks[..i]
        invariant parentDisk.sectorTypes == Tag(old(parentDisk.sectorTypes), blocks[..i], DataSector)
      {
        TagNext(old(parentDisk.sectorTypes), blocks, i, DataSector);
        AppendNext(old(dataBlocks), blocks, i);
        if blocks[i] != 0 {
          parentDisk.SetSectorType(blocks[i], DataSector);
        }
        dataBlocks := dataBlocks + [blocks[i]];
      }
      assert blocks[..|blocks|] == blocks;
    }

    /** `readIndex (blockPtr)`: the 256 entries of an index block, recorded and tagged; 256 zeros for
        a zero block number, with nothing recorded. */
    method ReadIndex(blockPtr: BlockNo) returns (blocks: seq<BlockNo>)
      modifies this`indexBlocks, parentDisk`sectorTypes
      ensures blocks == IndexEntries(disk, blockPtr)
      ensures indexBlocks == old(indexBlocks) + NonZero([blockPtr])
      ensures parentDisk.sectorTypes == Tag(old(parentDisk.sectorTypes), [blockPtr], IndexSector)
    {
      assert [blockPtr][..0] == [];
      blocks := [];
      if blockPtr == 0 {
        for i := 0 to INDEX_ENTRIES
          invariant blocks == seq(i, _ => 0)
        {
          blocks := blocks + [0];
        }
      } else {
        parentDisk.SetSectorType(blockPtr, IndexSector);
        indexBlocks := indexBlocks + [blockPtr];
        var buffer := disk[blockPtr];
        for i := 0 to INDEX_ENTRIES
          invariant blocks == IndexWords(buffer)[..i]
        {
          blocks := blocks + [Word(buffer[i], buffer[i + 0x100])];
        }
      }
    }

    /** `readMasterIndex (blockPtr)`: tags and records the master index, then returns its slots up
        to the highest populated one. */
    method ReadMasterIndex(blockPtr: BlockNo) returns (blocks: seq<BlockNo>)
      modifies this`indexBlocks, parentDisk`sectorTypes
      ensures blocks == MasterEntries(disk, blockPtr)
      ensures indexBlocks == old(indexBlocks) + [blockPtr]
      ensures parentDisk.sectorTypes == old(parentDisk.sectorTypes)[blockPtr := MasterIndexSector]
    {
      parentDisk.SetSectorType(blockPtr, MasterIndexSector);
      indexBlocks := indexBlocks + [blockPtr];
      var buffer := disk[blockPtr];
      var highest := MASTER_SLOTS;
      while true
        invariant 0 <= highest <= MASTER_SLOTS
        invariant forall j :: highest <= j < MASTER_SLOTS ==> SlotEmpty(buffer, j)
        decreases highest
      {
        var more := highest > 0;            // the test reads the counter before decrementing it
        highest := highest - 1;
        if !more || buffer[highest] != 0 || buffer[highest + 0x100] != 0 {
          break;
        }
      }
      if highest >= 0 {
        assert !SlotEmpty(buffer, highest);
      }
      assert highest == Highest(buffer, MASTER_SLOTS);
      blocks := [];
      for i := 0 to highest + 1
        invariant blocks == IndexWords(buffer)[..i]
      {
        blocks := blocks + [Word(buffer[i], buffer[i + 256])];
      }
    }

    /** The function `getBuffer` computes. */
    function Buffer(): seq<byte>
      reads this
    {
      FileBuffer(disk, storageType, dataBlocks)
    }

    /** `getBuffer ()`. */
    method GetBuffer() returns (buffer: seq<byte>)
      ensures buffer == Buffer()
      ensures storageType == SUBDIRECTORY ==> |buffer| == BLOCK_ENTRY_SIZE * |dataBlocks|
    {
      if IsIndexed(storageType) || storageType == GSOS_EXTENDED_FILE || storageType == PASCAL_ON_PROFILE {
        buffer := ReadSectors(disk, dataBlocks);
      } else if storageType == SUBDIRECTORY {
        var fullBuffer := new byte[|dataBlocks| * BLOCK_ENTRY_SIZE](_ => 0);
        var offset := 0;
        for k := 0 to |dataBlocks|
          invariant offset == BLOCK_ENTRY_SIZE * k
          invariant fullBuffer[..offset] == SubdirectoryBuffer(disk, dataBlocks[..k])
        {
          var block := disk[dataBlocks[k]];
          ghost var before := fullBuffer[..offset];
          forall t | 0 <= t < BLOCK_ENTRY_SIZE {
            fullBuffer[offset + t] := block[4 + t];
          }
          assert fullBuffer[..offset] == before;
          assert fullBuffer[offset..offset + BLOCK_ENTRY_SIZE] == block[4..4 + BLOCK_ENTRY_SIZE];
          assert fullBuffer[..offset + BLOCK_ENTRY_SIZE] == before + block[4..4 + BLOCK_ENTRY_SIZE];
          assert dataBlocks[..k + 1][..k] == dataBlocks[..k];
          offset := offset + BLOCK_ENTRY_SIZE;
        }
        assert dataBlocks[..|dataBlocks|] == dataBlocks;
        buffer := fullBuffer[..];
      } else {
        buffer := Zeros(BLOCK_SIZE);
      }
    }

    /** `getExactBuffer (buffer)`: copies into a new buffer of the end of file's size unless the
        buffer is kept as it is. */
    method GetExactBuffer(buffer: seq<byte>) returns (exact: seq<byte>)
      ensures exact == ExactBuffer(buffer, endOfFile)
    {
      if |buffer| < endOfFile {
        var exactBuffer := new byte[endOfFile](_ => 0);
        forall i | 0 <= i < |buffer| {
          exactBuffer[i] := buffer[i];
        }
        exact := exactBuffer[..];
        assert exact == buffer + Zeros(endOfFile - |buffer|);
      } else if |buffer| == endOfFile || endOfFile == 512 {
        exact := buffer;
      } else {
        var exactBuffer := new byte[endOfFile](_ => 0);
        forall i | 0 <= i < endOfFile {
          exactBuffer[i] := buffer[i];
        }
        exact := exactBuffer[..];
      }
    }

    /** The list `getSectors` returns: the catalog block, the master index if any, the index
        blocks, the data blocks. */
    function Sectors(): seq<BlockNo>
      reads this
    {
      [catalogBlock] + (if masterIndexBlock.Some? then [masterIndexBlock.value] else []) + indexBlocks + dataBlocks
    }

    /** `getSectors ()`. */
    method GetSectors() returns (sectors: seq<BlockNo>)
      ensures sectors == Sectors()
      ensures |sectors| == 1 + (if masterIndexBlock.Some? then 1 else 0) + |indexBlocks| + |dataBlocks|
      ensures sectors[0] == catalogBlock
    {
      sectors := [catalogBlock];
      if masterIndexBlock.Some? {
        sectors := sectors + [masterIndexBlock.value];
      }
      sectors := sectors + indexBlocks;
      sectors := sectors + dataBlocks;
    }

    /** `contains (da)`: whether the block is the master index, an index block or a data block; the
        catalog block is not looked at, and no address (null) is in no file. */
    method Contains(da: Option<BlockNo>) returns (r: bool)
      ensures r <==> da.Some? && (masterIndexBlock == da || da.value in indexBlocks || da.value in dataBlocks)
      ensures r <==> da.Some? && da.value in Sectors()[1..]
    {
      assert Sectors()[1..] == (if masterIndexBlock.Some? then [masterIndexBlock.value] else []) + indexBlocks + dataBlocks;
      if da.None? {
        return false;
      }
      if da == masterIndexBlock {
        return true;
      }
      for i := 0 to |indexBlocks|
        invariant forall j :: 0 <= j < i ==> indexBlocks[j] != da.value
      {
        if da.value == indexBlocks[i] {
          return true;
        }
      }
      for i := 0 to |dataBlocks|
        invariant forall j :: 0 <= j < i ==> dataBlocks[j] != da.value
      {
        if da.value == dataBlocks[i] {
          return true;
        }
      }
      return false;
    }

    /** `link (fileEntry)`: pairs this entry with the other half of a double hi-res picture. */
    method Link(fileEntry: FileEntry)
      modifies this`link
      ensures link == fileEntry
    {
      link := fileEntry;
    }

    // -------------------------------------------------------------------------------------------
    // Random-access text files.

    /** `readIndexBlock (indexBlock, addresses, buffers, logicalBlock)`: the lists and the counter it
        threads are passed in and returned as one Scanner. */
    method ReadIndexBlock(indexBlock: BlockNo, c: Scanner) returns (r: Scanner)
      ensures r == Scan(disk, auxType, c, IndexWords(disk[indexBlock]))
      ensures r.logicalBlock == c.logicalBlock + INDEX_ENTRIES
    {
      var indexBuffer := disk[indexBlock];
      ghost var entries := IndexWords(indexBuffer);
      var addresses, buffers, logicalBlock := c.addresses, c.buffers, c.logicalBlock;
      for j := 0 to INDEX_ENTRIES
        invariant Scanner(addresses, buffers, logicalBlock) == Scan(disk, auxType, c, entries[..j])
      {
        var block: BlockNo := Word(indexBuffer[j], indexBuffer[j + 256]);
        assert entries[..j + 1][..j] == entries[..j];
        assert entries[j] == block;
        if block > 0 {
          addresses := addresses + [block];
        } else if |addresses| > 0 {
          var tempBuffer := ReadSectors(disk, addresses);
          buffers := buffers + [TextBuffer(tempBuffer, auxType, logicalBlock - |addresses|)];
          addresses := [];
        }
        logicalBlock := logicalBlock + 1;
      }
      assert entries[..INDEX_ENTRIES] == entries;
      r := Scanner(addresses, buffers, logicalBlock);
      ScanAdvances(disk, auxType, c, entries);
    }

    /** The flush the text-file walks write out inline: a pending run of blocks is read as one
        buffer, tagged with the logical block of its first entry, and the run is cleared. */
    method FlushPending(c: Scanner) returns (r: Scanner)
      ensures r == Flush(disk, auxType, c)
    {
      r := c;
      if |c.addresses| > 0 {
        var tempBuffer := ReadSectors(disk, c.addresses);
        r := Scanner([], c.buffers + [TextBuffer(tempBuffer, auxType, c.logicalBlock - |c.addresses|)], c.logicalBlock);
      }
    }

    /** `getTreeTextFile ()`: every one of the 256 master-index entries is handled, a zero one by a
        flush and a skip of 256 logical blocks; there is no flush after the last. */
    method GetTreeTextFile() returns (r: DataSource)
      ensures r == TextSource(name, TreeScan(disk, auxType, START,
                                             IndexWords(disk[keyPtr])).buffers, auxType, endOfFile)
    {
      var mainIndexBuffer := disk[keyPtr];
      ghost var masters := IndexWords(mainIndexBuffer);
      var c := START;
      for i := 0 to INDEX_ENTRIES
        invariant c == TreeScan(disk, auxType, START, masters[..i])
      {
        var indexBlock: BlockNo := Word(mainIndexBuffer[i], mainIndexBuffer[i + 256]);
        assert masters[i] == indexBlock;
        TreeScanNext(disk, auxType, START, masters, i);
        c := TreeEntry(c, indexBlock);
      }
      assert masters[..INDEX_ENTRIES] == masters;
      r := TextSource(name, c.buffers, auxType, endOfFile);
    }

    /** One master-index entry of `getTreeTextFile ()`: a nonzero entry's index block is walked; a
        zero entry flushes the pending run and skips the 256 logical blocks it would have covered. */
    method TreeEntry(c: Scanner, indexBlock: BlockNo) returns (r: Scanner)
      ensures r == TreeEntryScan(disk, auxType, c, indexBlock)
    {
      if indexBlock > 0 {
        r := ReadIndexBlock(indexBlock, c);
      } else {
        r := FlushPending(c);
        r := r.(logicalBlock := r.logicalBlock + INDEX_ENTRIES);
      }
    }

    /** `getSaplingTextFile ()` as written: the key block's entries are walked and whatever run is
        still pending at the end is dropped. */
    method GetSaplingTextFileAsWritten() returns (r: DataSource)
      ensures r == TextSource(name, Scan(disk, auxType, START,
                                         IndexWords(disk[keyPtr])).buffers, auxType, endOfFile)
    {
      var c := ReadIndexBlock(keyPtr, START);
      r := TextSource(name, c.buffers, auxType, endOfFile);
    }

    /** `getSaplingTextFile ()` with the pending run flushed after the walk, so that a run reaching
        the last entry is kept. */
    method GetSaplingTextFile() returns (r: DataSource)
      ensures r == TextSource(name, Flush(disk, auxType,
                                          Scan(disk, auxType, START, IndexWords(disk[keyPtr]))).buffers,
                              auxType, endOfFile)
    {
      var c := ReadIndexBlock(keyPtr, START);
      c := FlushPending(c);
      r := TextSource(name, c.buffers, auxType, endOfFile);
    }

    /** `getSeedlingTextFile ()`: the block buffer cut to the end of file, never padded. */
    method GetSeedlingTextFile() returns (r: DataSource)
      ensures EndsWith(name, ".S") ==> r == MerlinSource(name, Truncated(Buffer(), endOfFile), auxType, endOfFile)
      ensures !EndsWith(name, ".S") ==> r == TextFile(name, Truncated(Buffer(), endOfFile), auxType, endOfFile)
    {
      var buffer := GetBuffer();
      if endOfFile < |buffer| {
        var exactBuffer := new byte[endOfFile](_ => 0);
        forall i | 0 <= i < endOfFile {
          exactBuffer[i] := buffer[i];
        }
        buffer := exactBuffer[..];
      }
      if EndsWith(name, ".S") {
        r := MerlinSource(name, buffer, auxType, endOfFile);
      } else {
        r := TextFile(name, buffer, auxType, endOfFile);
      }
    }

    /** What `getRandomAccessTextFile` yields; None (null) for a storage type that cannot hold one.
        The tree and sapling walks are the ones the original calls, neither flushing after its walk. */
    function RandomAccessSource(): Option<DataSource>
      reads this
    {
      if storageType == TREE then
        Some(TextSource(name, TreeScan(disk, auxType, START, IndexWords(disk[keyPtr])).buffers, auxType, endOfFile))
      else if storageType == SAPLING then
        Some(TextSource(name, Scan(disk, auxType, START, IndexWords(disk[keyPtr])).buffers, auxType, endOfFile))
      else if storageType == SEEDLING then
        var b := Truncated(Buffer(), endOfFile);
        Some(if EndsWith(name, ".S") then MerlinSource(name, b, auxType, endOfFile) else TextFile(name, b, auxType, endOfFile))
      else None
    }

    /** `getRandomAccessTextFile ()`. */
    method GetRandomAccessTextFile() returns (r: Option<DataSource>)
      ensures r == RandomAccessSource()
      ensures r.None? <==> !IsIndexed(storageType)
    {
      if storageType == TREE {
        var d := GetTreeTextFile();
        r := Some(d);
      } else if storageType == SAPLING {
        var d := GetSaplingTextFileAsWritten();
        r := Some(d);
      } else if storageType == SEEDLING {
        var d := GetSeedlingTextFile();
        r := Some(d);
      } else {
        r := None;
      }
    }

    // -------------------------------------------------------------------------------------------
    // The decoder.

    /** What the dispatch sees of this entry: the linked entry's buffer is read when there is one. */
    function View(): FileView
      reads this, link
    {
      var buffer := Buffer();
      FileView(name, fileType, auxType, endOfFile, buffer, ExactBuffer(buffer, endOfFile),
               if link == null then None else Some(link.Buffer()))
    }

    /** `getDataSource ()`: the cached decoder when there is one; a random-access text file is built
        afresh every time and not cached; any other file is decoded once and cached. None stands for
        the null returned for a random-access text file of an impossible storage type. */
    method GetDataSource(rec: Recognizers) returns (r: Option<DataSource>)
      modifies this`file
      ensures old(file).Some? ==> r == old(file) && file == old(file)
      ensures old(file).None? && fileType as int == FILE_TYPE_TEXT && auxType > 0 ==>
                r == RandomAccessSource() && file == None
      ensures old(file).None? && !(fileType as int == FILE_TYPE_TEXT && auxType > 0) ==>
                r == Some(Decode(rec, View(), parentDisk.totalBlocks, parentDisk.freeBlocks, parentDisk.usedBlocks))
                && file == r
    {
      if file.Some? {
        return file;
      }
      if fileType as int == FILE_TYPE_TEXT && auxType > 0 {
        r := GetRandomAccessTextFile();
        return;
      }
      var buffer := GetBuffer();
      var exactBuffer := GetExactBuffer(buffer);
      var linked: Option<seq<byte>> := None;
      if link != null {
        var other := link.GetBuffer();
        linked := Some(other);
      }
      var view := FileView(name, fileType, auxType, endOfFile, buffer, exactBuffer, linked);
      var d := DecodeByType(rec, view, parentDisk.totalBlocks, parentDisk.freeBlocks, parentDisk.usedBlocks);
      if rec.throws(d) {
        d := ErrorMessageFile(name, buffer);
      }
      file := Some(d);
      r := file;
    }
  }
}
