# DiskBrowser ProDOS file entries and hi-res images in Dafny

This project models two parts of DiskBrowser, a viewer for Apple II disk images.

**ProDOS file entries** (`FileEntry`). A directory entry names a key block and a storage type.
The entry's constructor resolves the file's storage tree into its index blocks and data blocks. The
layouts are seedling, sapling, tree, subdirectory chain and GS/OS extended file with two forks, and
each block visited is tagged with its role in the disk's sector map. The entry then:

- assembles the file's buffer, and the exact buffer cut or padded to the end of file;
- splits a random-access text file into runs of contiguous blocks;
- picks the decoder that shows the file, with a first-match cascade for binary files.

The classes `FileEntry` and `ProdosDisk` keep their mutable fields: `dataBlocks`, `indexBlocks`,
`masterIndexBlock`, `file`, `link`, and the sector map (a ghost map). Each method is proved to
compute what a specification function over the disk says (`DataBlocks`, `MasterEntries`,
`DirectoryChain`, `Scan`, `ExactBuffer`, ...). Lemmas then state what the storage-tree layout
promises about those functions. The disk is a sequence of 65536 blocks of 512 bytes.

**Hi-res images** (`HiResImage`). This part covers:

- the two byte-stream unpackers: the Beagle Bros "scrunch" run-length code and Apple IIGS PackBytes;
- the interleaved row addresses of the hi-res screen;
- the colour drawing of a row: seven pixels per byte from a 2 x 2 palette, the white merge and the optional colour quirks;
- the monochrome and the 4-bit gray renderings;
- `setColourQuirks`, the GIF signature check, and the aux-type line of the text view.

The image is an `array<int>` of pixels, row after row. The static `line` buffer and the static
`colourQuirks` switch live in a `Display` object that every image shares. The unpackers are methods
over arrays, proved equal to recursive definitions. Round-trip lemmas show that those definitions
invert an encoder.

Modules: `Util` and `Blocks` (bytes, words, the block reader), `StorageTree`, `RandomAccessText`,
`Decoders` and `ProdosFile` for the file entry, and `HiResFormats`, `HiResLines` and
`HiResImageView` for the image.

## Model

FileEntry.java is `src/com/bytezone/diskbrowser/prodos/FileEntry.java` and HiResImage.java is
`src/com/bytezone/diskbrowser/applefile/HiResImage.java`.

| member | source | states |
|---|---|---|
| Util.Word | src/com/bytezone/diskbrowser/prodos/FileEntry.java:169 | An index entry `lo \| hi << 8` is a 16-bit block number. It is zero exactly when both bytes are zero. |
| Util.SignedByte | src/com/bytezone/diskbrowser/applefile/HiResImage.java:242 | A repeat count read from a Java `byte` lies in -128..127 and agrees with the unsigned byte modulo 256. |
| Util.Zeros | src/com/bytezone/diskbrowser/prodos/FileEntry.java:422 | A new Java byte array of n bytes holds n zeros. |
| Blocks.ReadSectors | src/com/bytezone/diskbrowser/prodos/FileEntry.java:520 | Reading a list of blocks yields 512 bytes per block. |
| Blocks.ReadSectorsSlice | src/com/bytezone/diskbrowser/prodos/FileEntry.java:520 | Bytes 512k..512(k+1) of the read are block k of the list. |
| StorageTree.IndexWords | src/com/bytezone/diskbrowser/prodos/FileEntry.java:167-169 | An index block holds 256 entries. Entry i takes its low byte from offset i and its high byte from offset i + 256. |
| StorageTree.Highest | src/com/bytezone/diskbrowser/prodos/FileEntry.java:182-185 | The scan from slot 127 down finds a populated slot, or -1 when there is none. Every slot above it is empty in both bytes. |
| StorageTree.TreeBlocks | src/com/bytezone/diskbrowser/prodos/FileEntry.java:133-135 | A tree's raw block list has 256 entries per index block. |
| StorageTree.StripTrailingZeros | src/com/bytezone/diskbrowser/prodos/FileEntry.java:139-141 | The stripped list is a prefix of the raw list, and every element removed is zero. A non-empty result ends in a nonzero block. |
| StorageTree.NonZero | src/com/bytezone/diskbrowser/prodos/FileEntry.java:159-165 | Only nonzero block numbers are recorded as index blocks. Each one recorded is nonzero and comes from the list, and no more are recorded than listed. |
| StorageTree.TagNext | src/com/bytezone/diskbrowser/prodos/FileEntry.java:143-151 | Tagging one more block overwrites its role when it is nonzero, and changes nothing when it is zero. |
| StorageTree.IndexStep | src/com/bytezone/diskbrowser/prodos/FileEntry.java:134-135 | Reading one more index block of a tree extends both the recorded index blocks and the sector map of the blocks before it. |
| StorageTree.WalkFromChain | src/com/bytezone/diskbrowser/prodos/FileEntry.java:81-87 | The do-while walk, appending each block to the list so far, appends the chain of next-block links to that list. |
| StorageTree.SubdirectoryBuffer | src/com/bytezone/diskbrowser/prodos/FileEntry.java:523-531 | A subdirectory's buffer has 507 bytes per block. |
| StorageTree.IndexEntriesAt | src/com/bytezone/diskbrowser/prodos/FileEntry.java:155-173 | `readIndex (p)` yields 256 entries. Entry i is `buf[i] + 256 * buf[i + 256]`, or 0 when p is 0. |
| StorageTree.MasterEntriesShape | src/com/bytezone/diskbrowser/prodos/FileEntry.java:175-192 | `readMasterIndex` yields at most 128 entries, each the split-byte word of its slot. The list is empty exactly when all 128 slots are zero. A non-empty list ends at a populated slot. |
| StorageTree.MasterEntriesCount | src/com/bytezone/diskbrowser/prodos/FileEntry.java:182-191 | A master index whose highest populated slot is h yields exactly h + 1 entries. |
| StorageTree.TreeBlocksAt | src/com/bytezone/diskbrowser/prodos/FileEntry.java:133-135 | Entry i of the m-th index block sits at position 256m + i of a tree's raw block list. |
| StorageTree.DataBlocksBounds | src/com/bytezone/diskbrowser/prodos/FileEntry.java:118-153 | `addDataBlocks` adds at most 1 block for a seedling, 256 for a sapling and 128 x 256 for a tree, and none for any other storage type. The last block added is nonzero. |
| StorageTree.FullyPopulated | src/com/bytezone/diskbrowser/prodos/FileEntry.java:139-141 | A raw list ending in a nonzero block loses nothing. A full sapling keeps 256 blocks, and a tree keeps 256 per master entry. |
| StorageTree.TagChangesOnlyListed | src/com/bytezone/diskbrowser/prodos/FileEntry.java:143-151 | Tagging a list gives every nonzero listed block the role and changes no other block. No block loses its tag. |
| StorageTree.DirectoryChainStep | src/com/bytezone/diskbrowser/prodos/FileEntry.java:81-87 | A subdirectory's walk is the key block alone when its next-block word is zero. Otherwise it is the key block followed by the walk from the next block. |
| StorageTree.DirectoryChainStarts | src/com/bytezone/diskbrowser/prodos/FileEntry.java:81-84 | The subdirectory's block list starts with the key block. |
| StorageTree.DirectoryChainLinked | src/com/bytezone/diskbrowser/prodos/FileEntry.java:84-87 | Each listed block after the first is the nonzero word at offset 2 of the block before it. |
| StorageTree.DirectoryChainEnds | src/com/bytezone/diskbrowser/prodos/FileEntry.java:82-87 | The walk stops at the first block whose next-block word is zero, unless the fuel bound is reached first. |
| StorageTree.SubdirectoryBufferSlice | src/com/bytezone/diskbrowser/prodos/FileEntry.java:525-530 | Slice k of a subdirectory's buffer is block k from byte 4, for 507 bytes. |
| RandomAccessText.TreeScanNext | src/com/bytezone/diskbrowser/prodos/FileEntry.java:461-478 | The tree walk over one more master entry handles that entry after the ones before it. |
| RandomAccessText.ScanSnoc | src/com/bytezone/diskbrowser/prodos/FileEntry.java:608-621 | Scanning one more index entry applies one step to the state left by the entries before it. |
| RandomAccessText.ScanConcat | src/com/bytezone/diskbrowser/prodos/FileEntry.java:461-466 | Scanning two lists of entries back to back is scanning the first, then the second from where the first left off. |
| RandomAccessText.ScanAdvances | src/com/bytezone/diskbrowser/prodos/FileEntry.java:608-622 | Each entry advances the logical block by one, so an index block advances it by exactly 256. |
| RandomAccessText.ScanZerosIdle | src/com/bytezone/diskbrowser/prodos/FileEntry.java:608-621 | Zero entries with no run pending emit nothing and only advance the counter. |
| RandomAccessText.ScanZeroIndex | src/com/bytezone/diskbrowser/prodos/FileEntry.java:467-477 | A zero master entry of a tree flushes the pending run and skips 256 logical blocks. This is the same as scanning the 256 zeros `readIndex (0)` yields. |
| RandomAccessText.TreeScanIsScan | src/com/bytezone/diskbrowser/prodos/FileEntry.java:454-478 | The tree walk over the master entries is the scan of the tree's raw block list. |
| RandomAccessText.StepNonzero | src/com/bytezone/diskbrowser/prodos/FileEntry.java:611-612 | A nonzero entry extends the pending run and keeps the scan invariant. |
| RandomAccessText.FlushedRun | src/com/bytezone/diskbrowser/prodos/FileEntry.java:613-618 | The buffer a zero entry flushes holds the blocks of the pending run. It is tagged with the run's first logical block, and that zero entry ends the run. |
| RandomAccessText.FlushEmitsAll | src/com/bytezone/diskbrowser/prodos/FileEntry.java:613-619 | After a zero entry flushes, every run that a zero entry ends has a buffer. |
| RandomAccessText.StepZeroFlush | src/com/bytezone/diskbrowser/prodos/FileEntry.java:613-619 | A zero entry with a run pending emits that run and keeps the scan invariant. |
| RandomAccessText.StepZeroIdle | src/com/bytezone/diskbrowser/prodos/FileEntry.java:611-620 | A zero entry with nothing pending only advances the counter, and the scan invariant holds. |
| RandomAccessText.ScanInvariant | src/com/bytezone/diskbrowser/prodos/FileEntry.java:604-623 | After any entries the scan state satisfies its invariant. The pending addresses are the maximal nonzero suffix, the counter is the number of entries, and the buffers are the terminated runs in order. |
| RandomAccessText.ScanRuns | src/com/bytezone/diskbrowser/prodos/FileEntry.java:604-623 | Every emitted buffer holds a maximal run of nonzero entries that a zero entry ends, tagged with its first entry's logical index. Buffers come in increasing order, every such run is emitted, and the counter ends at the number of entries. |
| RandomAccessText.PendingBuffer | src/com/bytezone/diskbrowser/prodos/FileEntry.java:469-474 | Flushing a pending run emits a buffer that holds that maximal run and lies after every buffer already emitted. |
| RandomAccessText.FlushRuns | src/com/bytezone/diskbrowser/prodos/FileEntry.java:469-475 | After a final flush every maximal run has a buffer, including one that reaches the last entry. Every buffer holds such a run, and the buffers are in increasing order. |
| RandomAccessText.FlushedScanRuns | src/com/bytezone/diskbrowser/prodos/FileEntry.java:485-495 | With a flush after the walk, the buffers are exactly the maximal runs of the entries, in order. |
| RandomAccessText.UnflushedScanDropsLastRun | src/com/bytezone/diskbrowser/prodos/FileEntry.java:485-495 | Without the final flush, every buffer ends before a run that reaches the last entry, so that run is lost. |
| RandomAccessText.ScenarioTwoRuns | src/com/bytezone/diskbrowser/prodos/FileEntry.java:604-623 | Example only (the general result is ScanRuns): the index [5, 0, 0, 7, 8, 0, ...] yields two buffers, block 5 at logical block 0 and blocks 7 and 8 at logical block 3. |
| RandomAccessText.ScenarioPrefix | src/com/bytezone/diskbrowser/prodos/FileEntry.java:604-623 | Example only: step of ScenarioTwoRuns covering the first six entries of that index. |
| RandomAccessText.ScenarioFirstRun | src/com/bytezone/diskbrowser/prodos/FileEntry.java:611-619 | Example only: step of ScenarioTwoRuns for entries 5, 0, 0. |
| RandomAccessText.ScenarioSecondRun | src/com/bytezone/diskbrowser/prodos/FileEntry.java:611-619 | Example only: step of ScenarioTwoRuns for entries 7, 8, 0. |
| Decoders.AssemblerFallback | src/com/bytezone/diskbrowser/prodos/FileEntry.java:291-297 | The fallback is an assembler listing of the exact buffer. The extra buffer is attached exactly when the exact buffer is shorter than the block buffer, and it is the block buffer's tail. |
| Decoders.FirstMatchPicksLeast | src/com/bytezone/diskbrowser/prodos/FileEntry.java:266-297 | In the binary cascade, the branch at the least index whose guard holds builds the decoder. |
| Decoders.FirstMatchFallsBack | src/com/bytezone/diskbrowser/prodos/FileEntry.java:291-297 | When no guard holds, the assembler fallback decides. |
| Decoders.FirstMatchCases | src/com/bytezone/diskbrowser/prodos/FileEntry.java:266-297 | The cascade's result is either built by a holding branch with every earlier guard failing, or it is the fallback with every guard failing. |
| Decoders.BinaryHiResNeeds | src/com/bytezone/diskbrowser/prodos/FileEntry.java:270-288 | A binary file is shown as a hi-res image only when it is a GIF or PNG, a recognised `.BMP`, or has a hi-res end of file and aux type. |
| Decoders.BinaryLinkOrder | src/com/bytezone/diskbrowser/prodos/FileEntry.java:276-282 | A linked pair is one double hi-res image. An `.AUX` name puts the linked buffer first. |
| Decoders.DecodeBufferChoice | src/com/bytezone/diskbrowser/prodos/FileEntry.java:300-401 | Outside the binary cascade, each file type's decoder gets the whole block buffer or the exact buffer, as the switch chooses for that type. |
| ProdosFile.Triple | src/com/bytezone/diskbrowser/prodos/FileEntry.java:46 | The end of file is a 3-byte little-endian value below 2^24, and its three bytes are read back from it. |
| ProdosFile.Forks | src/com/bytezone/diskbrowser/prodos/FileEntry.java:109-114 | An extended key block has two mini-entries, at offsets 0 and 256. Each storage type is the low nibble of its first byte. |
| ProdosFile.ExactBuffer | src/com/bytezone/diskbrowser/prodos/FileEntry.java:412-433 | A short buffer is zero-padded to the end of file. A buffer of exactly the end of file, or at least 512 bytes when the end of file is 512, is kept. Any other buffer is cut to its first end-of-file bytes. |
| ProdosFile.Truncated | src/com/bytezone/diskbrowser/prodos/FileEntry.java:500-505 | A seedling text buffer is cut to the end of file when longer and otherwise kept. It is a prefix of the buffer. |
| ProdosFile.TextSource | src/com/bytezone/diskbrowser/prodos/FileEntry.java:479-482 | A random-access text file with exactly one run and a `.S` name is Merlin source over that run. Any other is a text file over all its runs. |
| ProdosFile.ProdosDisk.SetSectorType | src/com/bytezone/diskbrowser/prodos/FileEntry.java:149 | Tagging a block sets its role in the sector map and changes no other block. |
| ProdosFile.FileEntry.constructor | src/com/bytezone/diskbrowser/prodos/FileEntry.java:35-98 | Parses the type, key block, blocks used, end of file and aux type from the entry. The storage tree is then resolved into the data blocks, index blocks and sector map that the specification functions give. |
| ProdosFile.FileEntry.ResolveStorage | src/com/bytezone/diskbrowser/prodos/FileEntry.java:55-98 | Each storage type adds its data blocks, index blocks and tags, as the specification functions give. Only a tree sets the master index block. |
| ProdosFile.FileEntry.WalkDirectory | src/com/bytezone/diskbrowser/prodos/FileEntry.java:80-88 | The subdirectory's chain of blocks is appended to the data blocks. |
| ProdosFile.FileEntry.ReadForks | src/com/bytezone/diskbrowser/prodos/FileEntry.java:101-116 | Tags and records the extended key block, then resolves the data fork followed by the resource fork. |
| ProdosFile.FileEntry.AddDataBlocks | src/com/bytezone/diskbrowser/prodos/FileEntry.java:118-153 | Appends the raw block list without its trailing zeros, records the index blocks visited, and tags the master index, the index blocks and the nonzero data blocks. |
| ProdosFile.FileEntry.CollectBlocks | src/com/bytezone/diskbrowser/prodos/FileEntry.java:120-137 | The storage-type switch yields the raw block list, recording and tagging the index blocks it reads. |
| ProdosFile.FileEntry.ReadTree | src/com/bytezone/diskbrowser/prodos/FileEntry.java:133-136 | A tree's raw list is the concatenated entries of the index blocks its master index names. The master index and every nonzero index block are recorded. |
| ProdosFile.FileEntry.AppendDataBlocks | src/com/bytezone/diskbrowser/prodos/FileEntry.java:143-152 | Every block joins the data blocks, and only nonzero blocks are tagged as data. |
| ProdosFile.FileEntry.ReadIndex | src/com/bytezone/diskbrowser/prodos/FileEntry.java:155-173 | Yields the 256 entries, recording and tagging the block once. A zero block number yields 256 zeros and records nothing. |
| ProdosFile.FileEntry.ReadMasterIndex | src/com/bytezone/diskbrowser/prodos/FileEntry.java:175-192 | Always tags and records the master index block, and yields its slots up to the highest populated one. |
| ProdosFile.FileEntry.GetBuffer | src/com/bytezone/diskbrowser/prodos/FileEntry.java:513-543 | Returns the file's buffer. A subdirectory's buffer is 507 bytes per block. |
| ProdosFile.FileEntry.GetExactBuffer | src/com/bytezone/diskbrowser/prodos/FileEntry.java:412-433 | Returns the exact buffer for the entry's end of file. |
| ProdosFile.FileEntry.GetSectors | src/com/bytezone/diskbrowser/prodos/FileEntry.java:625-635 | Lists the catalog block first, then the master index if any, then the index blocks, then the data blocks. |
| ProdosFile.FileEntry.Contains | src/com/bytezone/diskbrowser/prodos/FileEntry.java:637-651 | True exactly for a non-null block that is the master index, an index block or a data block, that is, any sector listed after the catalog block. |
| ProdosFile.FileEntry.Link | src/com/bytezone/diskbrowser/prodos/FileEntry.java:653-656 | Pairs this entry with the other half of a double hi-res picture. |
| ProdosFile.FileEntry.ReadIndexBlock | src/com/bytezone/diskbrowser/prodos/FileEntry.java:604-623 | Scans the 256 entries of the index block from the given state, and the logical block advances by 256. |
| ProdosFile.FileEntry.FlushPending | src/com/bytezone/diskbrowser/prodos/FileEntry.java:469-475 | A pending run is read as one buffer tagged with its first logical block, and the list is cleared. With nothing pending, nothing changes. |
| ProdosFile.FileEntry.GetTreeTextFile | src/com/bytezone/diskbrowser/prodos/FileEntry.java:454-483 | The text source built from the tree walk over all 256 master entries. |
| ProdosFile.FileEntry.TreeEntry | src/com/bytezone/diskbrowser/prodos/FileEntry.java:463-477 | A nonzero master entry's index block is scanned. A zero entry flushes and skips 256 logical blocks. |
| ProdosFile.FileEntry.GetSaplingTextFileAsWritten | src/com/bytezone/diskbrowser/prodos/FileEntry.java:485-495 | The text source built from the key block's entries with no final flush. |
| ProdosFile.FileEntry.GetSaplingTextFile | src/com/bytezone/diskbrowser/prodos/FileEntry.java:485-495 | The text source built from the key block's entries followed by a flush, so every maximal run becomes a buffer. |
| ProdosFile.FileEntry.GetSeedlingTextFile | src/com/bytezone/diskbrowser/prodos/FileEntry.java:497-511 | The block buffer cut to the end of file, never padded. It is Merlin source for a `.S` name and a text file otherwise. |
| ProdosFile.FileEntry.GetRandomAccessTextFile | src/com/bytezone/diskbrowser/prodos/FileEntry.java:435-452 | Tree, sapling and seedling files each take their own walk, as written: the tree and sapling walks end without a final flush, so a sapling run reaching index entry 255 is not shown (see Findings). Any other storage type gives null. |
| ProdosFile.FileEntry.GetDataSource | src/com/bytezone/diskbrowser/prodos/FileEntry.java:238-410 | A cached decoder is returned unchanged. A random-access text file is rebuilt on every call by the as-written walks and never cached. Any other file is decoded once from its buffers and cached, and a decoder that throws becomes an error view of the block buffer. |
| HiResFormats.Fill | src/com/bytezone/diskbrowser/applefile/HiResImage.java:243-244 | A repeat writes n copies of the byte, and none when the signed count is at most zero. |
| HiResFormats.Unscrunched | src/com/bytezone/diskbrowser/applefile/HiResImage.java:229-250 | Unscrunching succeeds only with a full 0x2000-byte screen that extends the output so far. |
| HiResFormats.Unscrunch | src/com/bytezone/diskbrowser/applefile/HiResImage.java:229-250 | The loop over the output array computes the definition. It fails exactly where Java throws (input exhausted, or a repeat past the screen), and its output is always 0x2000 bytes. |
| HiResFormats.RunExpansion | src/com/bytezone/diskbrowser/applefile/HiResImage.java:239-247 | A well-formed token expands to at least one byte. |
| HiResFormats.UnscrunchRun | src/com/bytezone/diskbrowser/applefile/HiResImage.java:238-247 | Reading one token appends its expansion: a literal, n zeros for `0x80, n`, or n bytes 0x7F for `0xFF, n`. |
| HiResFormats.UnscrunchRuns | src/com/bytezone/diskbrowser/applefile/HiResImage.java:236-248 | Tokens read in order append their expansions in order. |
| HiResFormats.ScrunchedTokens | src/com/bytezone/diskbrowser/applefile/HiResImage.java:238-242 | An encoding of tokens is read back token by token, wherever it is written. |
| HiResFormats.UnscrunchRoundTrip | src/com/bytezone/diskbrowser/applefile/HiResImage.java:229-250 | Tokens that expand to exactly one screen unscrunch to that screen, whatever bytes follow them. |
| HiResFormats.Cycle | src/com/bytezone/diskbrowser/applefile/HiResImage.java:295-297 | Repeating a 4-byte pattern n times gives 4n bytes. |
| HiResFormats.PacketAt | src/com/bytezone/diskbrowser/applefile/HiResImage.java:276-306 | A packet read at a control byte ends after it and within the input. |
| HiResFormats.Unpacked | src/com/bytezone/diskbrowser/applefile/HiResImage.java:274-307 | The unpack loop never produces more than 32768 bytes. |
| HiResFormats.Unpack | src/com/bytezone/diskbrowser/applefile/HiResImage.java:264-310 | A successful unpack is exactly 32768 bytes: what the packets emit, then zeros. |
| HiResFormats.Emit | src/com/bytezone/diskbrowser/applefile/HiResImage.java:282-304 | Writes the bytes at the output cursor, keeping the rest zero. It fails exactly when a write would go past byte 32767. |
| HiResFormats.UnpackBytes | src/com/bytezone/diskbrowser/applefile/HiResImage.java:264-310 | The loop over the control bytes computes the definition. It fails exactly where Java throws (input exhausted, or output past 32768 bytes). |
| HiResFormats.PacketSizes | src/com/bytezone/diskbrowser/applefile/HiResImage.java:276-305 | Mode 0 consumes 1 + c bytes and emits c. Mode 1 consumes 2 and emits c. Mode 2 consumes 5 and emits 4c. Mode 3 consumes 2 and emits 4c. The mode is the top two bits of the control byte. |
| HiResFormats.PacketAtPacket | src/com/bytezone/diskbrowser/applefile/HiResImage.java:276-306 | A packet written at a position is read back as that packet's expansion, and the next control byte follows its bytes. |
| HiResFormats.UnpackPacket | src/com/bytezone/diskbrowser/applefile/HiResImage.java:274-307 | Reading one packet appends its expansion. |
| HiResFormats.UnpackPackets | src/com/bytezone/diskbrowser/applefile/HiResImage.java:274-307 | Packets read in order append their expansions in order. |
| HiResFormats.UnpackRoundTrip | src/com/bytezone/diskbrowser/applefile/HiResImage.java:264-310 | Packed packets unpack to what they emit, zero-filled to 32768 bytes. |
| HiResFormats.IsGifSignature | src/com/bytezone/diskbrowser/applefile/HiResImage.java:365-371 | A buffer is a GIF exactly when it has at least six bytes and they spell `GIF89a` or `GIF87a`. Only those six bytes matter. |
| HiResFormats.GrayPixels | src/com/bytezone/diskbrowser/applefile/HiResImage.java:217-224 | Each byte gives two pixels, high nibble first. Each pixel is white when its nibble is nonzero. |
| HiResFormats.Screen2 | src/com/bytezone/diskbrowser/applefile/HiResImage.java:209-225 | The gray screen has 320 x 200 pixels. |
| HiResFormats.ScreenPixels | src/com/bytezone/diskbrowser/applefile/HiResImage.java:214-225 | An image whose pixel pairs are the gray pixels of the first 32000 bytes is the gray screen. |
| HiResFormats.AuxTextShown | src/com/bytezone/diskbrowser/applefile/HiResImage.java:319-350 | The aux line appears exactly for type 8 with aux at most 0x4001, type 192 with aux 1..3, and type 193 with aux 0..2. "Packed Super Hi-Res Image" means type 192 with aux 1. |
| HiResImageView.Display.constructor | src/com/bytezone/diskbrowser/applefile/HiResImage.java:22-27 | The shared line is 280 pixels, all black, and the quirks are off. |
| HiResImageView.Display.SetDefaultColourQuirks | src/com/bytezone/diskbrowser/applefile/HiResImage.java:62-65 | Sets the shared quirks switch. |
| HiResImageView.MaskBit | src/com/bytezone/diskbrowser/applefile/HiResImage.java:84 | Mask entry m is bit 6 - m. |
| HiResImageView.HiResImage.FillLine | src/com/bytezone/diskbrowser/applefile/HiResImage.java:131-145 | The fill loops leave the line the fill definition gives: seven pixels per byte of the row, the rest unchanged. |
| HiResImageView.HiResImage.MergeLine | src/com/bytezone/diskbrowser/applefile/HiResImage.java:148-152 | The merge loop leaves the merged line. |
| HiResImageView.HiResImage.QuirksLine | src/com/bytezone/diskbrowser/applefile/HiResImage.java:155-181 | The quirks loop leaves the quirked line. |
| HiResImageView.HiResImage.DrawLine | src/com/bytezone/diskbrowser/applefile/HiResImage.java:129-187 | The line becomes the drawn line of the row. It is copied after the pixels already in the image, the rest of the image is untouched, and the element index advances by 280. |
| HiResImageView.HiResImage.constructor | src/com/bytezone/diskbrowser/applefile/HiResImage.java:29-43 | "FLY LOGO" and "BIGBAT.PAC" are unscrunched first, and a malformed one fails. A GIF is not drawn, and neither it nor a failed unscrunch touches the shared line. Any other image is drawn in colour, with the row count taken from the buffer as passed in. |
| HiResImageView.HiResImage.Typed | src/com/bytezone/diskbrowser/applefile/HiResImage.java:45-60 | Type 0xC0 with aux 1 is unpacked and drawn as the gray screen, and a malformed one fails. Nothing is drawn for any other pair. |
| HiResImageView.HiResImage.SetColourQuirks | src/com/bytezone/diskbrowser/applefile/HiResImage.java:67-74 | Setting the current value changes nothing. Otherwise the switch is set and the image is redrawn in colour from the buffer with the new value. |
| HiResImageView.HiResImage.DrawColour | src/com/bytezone/diskbrowser/applefile/HiResImage.java:111-127 | A fresh 280-wide image of 192 or 384 rows, holding the colour image and leaving its last row in the shared line. |
| HiResImageView.HiResImage.DrawThird | src/com/bytezone/diskbrowser/applefile/HiResImage.java:120-126 | The j and k loops draw the next 64 rows at their screen addresses, extending the colour image by those rows. |
| HiResImageView.HiResImage.DrawMonochrome | src/com/bytezone/diskbrowser/applefile/HiResImage.java:76-109 | A fresh image holding the monochrome rendering of the buffer. |
| HiResImageView.HiResImage.MonochromePixels | src/com/bytezone/diskbrowser/applefile/HiResImage.java:78-108 | The four nested loops fill a zeroed array with the monochrome rendering. |
| HiResImageView.HiResImage.DrawMonochromeThird | src/com/bytezone/diskbrowser/applefile/HiResImage.java:87-107 | The j and k loops append the gray pixels of the next 64 rows and leave the rest zero. |
| HiResImageView.HiResImage.DrawMonochromeRow | src/com/bytezone/diskbrowser/applefile/HiResImage.java:91-107 | The ptr loop appends seven gray pixels for each byte of the row the buffer holds, and leaves the rest zero. |
| HiResImageView.HiResImage.DrawMonochromeByte | src/com/bytezone/diskbrowser/applefile/HiResImage.java:95-106 | One byte advances the element index by seven and sets its pixels, with the zero-byte shortcut giving the same pixels. |
| HiResImageView.HiResImage.MakeScreen2 | src/com/bytezone/diskbrowser/applefile/HiResImage.java:194-226 | A fresh 320 x 200 image equal to the gray screen of the buffer. |
| HiResImageView.HiResImage.GetAuxText | src/com/bytezone/diskbrowser/applefile/HiResImage.java:319-350 | Gives the aux line for the type and aux type. A packed super hi-res image not yet unpacked is unpacked here, and nothing else changes. |
| HiResLines.PaletteColours | src/com/bytezone/diskbrowser/applefile/HiResImage.java:20 | Every palette entry is violet, green, blue or red, so never black or white. |
| HiResLines.RowOrder | src/com/bytezone/diskbrowser/applefile/HiResImage.java:119-124 | The loops over z, i, j and k visit image row z*192 + i*64 + j*8 + k at `i*0x28 + j*0x80 + k*0x400 + z*0x2000`. |
| HiResLines.RowBaseBounds | src/com/bytezone/diskbrowser/applefile/HiResImage.java:124 | Each row's 40 bytes lie inside its own 0x2000-byte field. |
| HiResLines.RowBaseDecode | src/com/bytezone/diskbrowser/applefile/HiResImage.java:124 | The row number is recovered from each row base. |
| HiResLines.RowAddressInField | src/com/bytezone/diskbrowser/applefile/HiResImage.java:119-124 | Row r's bytes lie in field r / 192, and r is read back from its address. |
| HiResLines.RowAddressDistinct | src/com/bytezone/diskbrowser/applefile/HiResImage.java:119-124 | Different image rows start at different screen bytes, so a field has 192 distinct row bases. |
| HiResLines.RowLength | src/com/bytezone/diskbrowser/applefile/HiResImage.java:131 | A row covers at most 40 bytes, and only bytes the buffer holds. |
| HiResLines.RowSlice | src/com/bytezone/diskbrowser/applefile/HiResImage.java:131-134 | The row's bytes are the buffer's bytes from the row base. |
| HiResLines.Filled | src/com/bytezone/diskbrowser/applefile/HiResImage.java:134-145 | The filled line is 280 pixels. Its pixels are stated by FilledPixels. |
| HiResLines.FilledTo | src/com/bytezone/diskbrowser/applefile/HiResImage.java:139-143 | The line part-way through the fill is 280 pixels. |
| HiResLines.FilledToNext | src/com/bytezone/diskbrowser/applefile/HiResImage.java:141-143 | Writing pixel px of the byte at ptr is the next step of the fill, within the line. |
| HiResLines.FilledPixels | src/com/bytezone/diskbrowser/applefile/HiResImage.java:134-145 | Before the passes, a row pixel is black exactly when its bit is clear. Otherwise it is `colours[bit 7][(ptr + px) % 2]`. Pixels past the row keep the previous line's. |
| HiResLines.MergeStep | src/com/bytezone/diskbrowser/applefile/HiResImage.java:150-152 | One merge step keeps the line's length. |
| HiResLines.MergeFrom | src/com/bytezone/diskbrowser/applefile/HiResImage.java:149 | The merge loop from x keeps the line's 280 pixels. |
| HiResLines.Merged | src/com/bytezone/diskbrowser/applefile/HiResImage.java:148-152 | The merged line is 280 pixels. Its pixels are stated by MergedDeclarative and MergedProperties. |
| HiResLines.MergeStepInvariant | src/com/bytezone/diskbrowser/applefile/HiResImage.java:149-152 | Each merge step keeps the loop invariant: pixels before x are final. |
| HiResLines.MergeFromDeclarative | src/com/bytezone/diskbrowser/applefile/HiResImage.java:149-152 | From a state meeting the invariant, the rest of the loop yields the pixel-wise merge. |
| HiResLines.MergedDeclarative | src/com/bytezone/diskbrowser/applefile/HiResImage.java:148-152 | The left-to-right merge loop computes the pixel-wise merge. Black stays black, and a non-black pixel turns white when a neighbour is non-black. |
| HiResLines.MergedProperties | src/com/bytezone/diskbrowser/applefile/HiResImage.java:148-152 | After the merge, adjacent non-black pixels are both white, and a pixel is black after exactly when it was black before. |
| HiResLines.QuirkStep | src/com/bytezone/diskbrowser/applefile/HiResImage.java:159-179 | One quirk window keeps the line's length. |
| HiResLines.QuirksFrom | src/com/bytezone/diskbrowser/applefile/HiResImage.java:157 | The quirk loop from x keeps the line's 280 pixels. |
| HiResLines.Quirked | src/com/bytezone/diskbrowser/applefile/HiResImage.java:155-181 | The quirked line is 280 pixels. Its pixels are stated by QuirkedRecolours. |
| HiResLines.QuirkStepChanges | src/com/bytezone/diskbrowser/applefile/HiResImage.java:164-179 | A window rewrites at most pixel x+1 or x+2, only a black one, and only to a coloured neighbour in the window. |
| HiResLines.QuirksFromRecolours | src/com/bytezone/diskbrowser/applefile/HiResImage.java:157-180 | Running the rest of the windows still turns only black pixels into colours. |
| HiResLines.QuirkedRecolours | src/com/bytezone/diskbrowser/applefile/HiResImage.java:155-181 | The quirks pass keeps every non-black pixel. Every pixel it changes was black and becomes a colour. |
| HiResLines.QuirkRules | src/com/bytezone/diskbrowser/applefile/HiResImage.java:166-178 | Example only (the general result is QuirkedRecolours): one window per rule, V-B-V-B to V-V-V-B, V-B-W-W to V-V-W-W, B-G-B-G to B-G-G-G, W-W-B-G to W-W-G-G, and W-B-W-B left alone. |
| HiResLines.DrawnLine | src/com/bytezone/diskbrowser/applefile/HiResImage.java:129-187 | The line drawn for a row is 280 pixels. Its pixels are stated by DrawnLinePixel and DrawnLineMerged. |
| HiResLines.RowAddresses | src/com/bytezone/diskbrowser/applefile/HiResImage.java:119-124 | The screen addresses of the first n rows, one per row. |
| HiResLines.AtRowAddressesSnoc | src/com/bytezone/diskbrowser/applefile/HiResImage.java:124 | The address of the next row extends the addresses of the rows before it. |
| HiResLines.AtRowAddressesAll | src/com/bytezone/diskbrowser/applefile/HiResImage.java:119-124 | A list holds each row's address at that row's index exactly when it is the first row addresses. |
| HiResLines.ColourAlong | src/com/bytezone/diskbrowser/applefile/HiResImage.java:119-126 | Drawing rows at the given addresses gives 280 pixels per row and leaves a 280-pixel line. |
| HiResLines.ColourAlongSnoc | src/com/bytezone/diskbrowser/applefile/HiResImage.java:125 | Drawing one more row appends the line drawn from the previous line, and leaves it as the line. |
| HiResLines.ColourImage | src/com/bytezone/diskbrowser/applefile/HiResImage.java:111-127 | The colour image has 280 pixels per row. Its rows are stated by ColourImageRows. |
| HiResLines.ImageRow | src/com/bytezone/diskbrowser/applefile/HiResImage.java:183-184 | Row q of an image is 280 pixels. |
| HiResLines.LineBeforeRow | src/com/bytezone/diskbrowser/applefile/HiResImage.java:22 | The shared line when row q is drawn is 280 pixels: the line left before the image for row 0, the previous row otherwise. |
| HiResLines.ImageRowAppend | src/com/bytezone/diskbrowser/applefile/HiResImage.java:183-184 | Appending a row keeps the rows already there and adds the new one. |
| HiResLines.RowsDrawnStep | src/com/bytezone/diskbrowser/applefile/HiResImage.java:125 | Appending the line drawn for row n to an image of n drawn rows gives n + 1 drawn rows. |
| HiResLines.ColourAlongDrawn | src/com/bytezone/diskbrowser/applefile/HiResImage.java:119-126 | Drawing rows at their own addresses gives an image whose row q is the line drawn for row q from row q - 1. The line left is the last row. |
| HiResLines.ColourImageRows | src/com/bytezone/diskbrowser/applefile/HiResImage.java:111-127 | Every row q of the colour image is the line `drawLine` builds for the row at RowAddress(q), and the shared line ends as the last row. |
| HiResLines.DrawnLinePixel | src/com/bytezone/diskbrowser/applefile/HiResImage.java:134-181 | A set bit's pixel is never black after the passes. With the quirks off, a pixel is black exactly when its bit is clear. |
| HiResLines.DrawnLineMerged | src/com/bytezone/diskbrowser/applefile/HiResImage.java:148-152 | With the quirks off, adjacent non-black pixels of a drawn line are both white. |
| HiResLines.ColourImageRow | src/com/bytezone/diskbrowser/applefile/HiResImage.java:119-126 | Row q of the colour image is the line drawn for row q out of row q - 1. |
| HiResLines.ColourImagePixel | src/com/bytezone/diskbrowser/applefile/HiResImage.java:134-181 | In the colour image, a pixel whose bit is set is never black. |
| HiResLines.ColourImageBlackPixel | src/com/bytezone/diskbrowser/applefile/HiResImage.java:141-152 | With the quirks off, a pixel of the colour image is black exactly when its bit is clear. |
| HiResLines.ColourImageMerged | src/com/bytezone/diskbrowser/applefile/HiResImage.java:148-152 | With the quirks off, adjacent non-black pixels of a row of the colour image are both white. |
| HiResLines.MonoByte | src/com/bytezone/diskbrowser/applefile/HiResImage.java:101-106 | A byte gives seven gray pixels, bit 0 first. |
| HiResLines.MonoBytes | src/com/bytezone/diskbrowser/applefile/HiResImage.java:93-107 | A row gives seven pixels per byte. |
| HiResLines.MonoBytesSnoc | src/com/bytezone/diskbrowser/applefile/HiResImage.java:93-107 | One more byte appends its seven pixels. |
| HiResLines.MonoAlong | src/com/bytezone/diskbrowser/applefile/HiResImage.java:86-108 | Rows back to back, with no padding for a short row, give at most 280 pixels per row. |
| HiResLines.MonoAlongSnoc | src/com/bytezone/diskbrowser/applefile/HiResImage.java:91-107 | One more row appends its pixels. |
| HiResLines.MonoZeroByte | src/com/bytezone/diskbrowser/applefile/HiResImage.java:96-100 | The zero-byte shortcut is the same as drawing seven clear bits. |
| HiResLines.MonochromeImage | src/com/bytezone/diskbrowser/applefile/HiResImage.java:76-109 | The monochrome image has 280 pixels per row, with 192 or 384 rows. |
| HiResLines.MonochromeImageFrom | src/com/bytezone/diskbrowser/applefile/HiResImage.java:76-109 | An array holding every row's gray pixels in row order, then zeros, is the monochrome image. |

## Left out

- GEOS: `isGSOSFile` always returns false, so `traverseGEOSIndex`, `traverseGEOSMasterIndex`, `getGEOSBuffer`, `getIndexFile` and `getMasterIndexFile` never run. They are not modelled.
- The `invalid` field is never set in FileEntry.java, so its branch in `getDataSource` is left out.
- Decoders: the classes built in `getDataSource` are opaque tags carrying their arguments.
  - The recognisers (`isShapeTable`, `isHTML`, `isPng`, `isBmp`, `isFont`) are parameters, and so is whether a decoder's construction throws.
  - `isPng` and `isBmp` are not defined in HiResImage.java, so the model cannot define them either.
- File-type and storage-type codes: ProdosConstants is not part of this model. Codes follow the ProDOS 8 Technical Reference Manual and Apple's file-type list, and only their distinctness matters to the dispatch.
- `BLOCK_ENTRY_SIZE` is taken as 507: 13 entries of 39 bytes after the 4-byte link header.
- `HexFormatter.unsignedShort` and `intValue` are taken as little-endian.
- The disk and its sector map:
  - Block I/O is a total sequence of 65536 blocks, so an out-of-range block number cannot occur.
  - `DiskAddress` is its block number, and block 0 stands for the empty address.
  - The sector map is a ghost map, and each tag is the last one written.
- The subdirectory walk follows at most 0x10000 blocks. A cyclic chain makes the original loop forever, and the model stops after that many blocks.
- CatalogEntry is not part of this model. The name and storage type are constructor parameters, and the parent directory is left out.
- Java exceptions are modelled as failure. A malformed scrunched or packed buffer makes the unpacker return None and sets `failed` on the image. A decoder that throws becomes an ErrorMessageFile.
- `ProdosFile.FileEntry.GetDataSource` and `ProdosFile.FileEntry.GetRandomAccessTextFile`: they dispatch to the sapling walk as written, without a final flush. The corrected walk `GetSaplingTextFile` is modelled beside it but nothing calls it.
- `ProdosFile.FileEntry.GetTreeTextFile`: modelled as written, without a final flush. Master entries 128..255 read bytes that a well-formed master index leaves zero, so on a well-formed disk a zero entry flushes the last run anyway.
- `makeGif` (ImageIO decoding) is not modelled. `BufferedImage` and `DataBuffer` are an `array<int>` of pixels, row after row.
- Not modelled: `toString`, `getAppleDate` timestamps, the body of `getText` beyond the aux-type line (the hex dump and size lines), and all console output (including the "yippee" line).
- `drawMonochrome` is modelled, but the first constructor always draws in colour (`if (true)`), so nothing in the original reaches it.
- The static `line` array and `colourQuirks` flag are fields of a `Display` object that every image is given.
  - The image keeps whatever the line held past a short row's pixels; this stale tail is modelled.
  - Concurrent use of the shared line is not modelled.

Facts about the code worth knowing when reading the model:

- The quirks pass (HiResImage.java:157-180) has four rules.
- `getExactBuffer` zero-pads a buffer shorter than 512 bytes even when the end of file is 512. Only a buffer at least 512 bytes long is kept as it is.
- The first constructor always draws in colour.

## Findings

| source | as written | input that shows it | evidently intended | confidence | as-written member | corrected member |
|---|---|---|---|---|---|---|
| src/com/bytezone/diskbrowser/prodos/FileEntry.java:485-495 | `getSaplingTextFile` walks the index block with `readIndexBlock` but never flushes the addresses still pending afterwards. `readIndexBlock` only flushes on a zero entry. | A random-access sapling text file whose index entry 255 is nonzero, e.g. entries 0..254 zero and entry 255 = 9. It yields no TextBuffer, and the record in block 9 is not shown. | Flush the pending run after the walk, as the tree walk does for a zero master entry, so every maximal run of blocks becomes a TextBuffer. | not executed | RandomAccessText.UnflushedScanDropsLastRun, ProdosFile.FileEntry.GetSaplingTextFileAsWritten | RandomAccessText.FlushedScanRuns, ProdosFile.FileEntry.GetSaplingTextFile |
