/** The decode dispatch of a ProDOS file entry: from file type, name, aux type, end of file and
    the file's buffers to the decoder object that will show the file. Decoders are opaque tags
    carrying the arguments they are built from; the recognisers the decoder classes provide and
    whether building a decoder fails are parameters. */
module Decoders {
  import opened Util
  import opened RandomAccessText
  import HiResFormats

  // ProDOS file types the dispatch distinguishes.
  const FILE_TYPE_TEXT := 0x04
  const FILE_TYPE_BINARY := 0x06
  const FILE_TYPE_DIRECTORY := 0x0F
  const FILE_TYPE_ADB := 0x19
  const FILE_TYPE_AWP := 0x1A
  const FILE_TYPE_ASP := 0x1B
  const FILE_TYPE_DESCRIPTOR_TABLE := 0x42
  const FILE_TYPE_GWP := 0x50
  const FILE_TYPE_IIGS_SOURCE := 0xB0
  const FILE_TYPE_IIGS_APPLICATION := 0xB3
  const FILE_TYPE_IIGS_DEVICE_DRIVER := 0xBB
  const FILE_TYPE_GSOS_FILE_SYSTEM_TRANSLATOR := 0xBD
  const FILE_TYPE_PNT := 0xC0
  const FILE_TYPE_PIC := 0xC1
  const FILE_TYPE_FONT := 0xC8
  const FILE_TYPE_FINDER := 0xC9
  const FILE_TYPE_ICN := 0xCA
  const FILE_TYPE_APPLETALK := 0xE2
  const FILE_TYPE_PASCAL_VOLUME := 0xEF
  const FILE_TYPE_USER_DEFINED_1 := 0xF1
  const FILE_TYPE_BAT := 0xF5
  const FILE_TYPE_INTEGER_BASIC := 0xFA
  const FILE_TYPE_APPLESOFT_BASIC := 0xFC
  const FILE_TYPE_APPLESOFT_BASIC_VARS := 0xFD
  const FILE_TYPE_RELOCATABLE := 0xFE
  const FILE_TYPE_SYS := 0xFF

  /** The decoder chosen for a file, with the arguments it is built from. */
  datatype DataSource =
    | ShapeTable(name: string, buffer: seq<byte>)
    | SimpleText(name: string, buffer: seq<byte>)
    | OriginalHiResImage(name: string, buffer: seq<byte>, auxType: int)
    | FontFile(name: string, buffer: seq<byte>)
    | DoubleHiResImage(name: string, buffer: seq<byte>, buffer2: seq<byte>)
    | PackedDoubleHiResImage(name: string, buffer: seq<byte>)
    | LodeRunner(name: string, buffer: seq<byte>)
    | AssemblerProgram(name: string, buffer: seq<byte>, auxType: int, extra: Option<seq<byte>>)
    | TextFile(name: string, buffer: seq<byte>, auxType: int, endOfFile: int)
    | RandomAccessTextFile(name: string, buffers: seq<TextBuffer>, auxType: int, endOfFile: int)
    | MerlinSource(name: string, buffer: seq<byte>, auxType: int, endOfFile: int)
    | BasicProgram(name: string, buffer: seq<byte>)
    | IntegerBasicProgram(name: string, buffer: seq<byte>)
    | ProdosDirectory(name: string, buffer: seq<byte>, totalBlocks: int, freeBlocks: int, usedBlocks: int)
    | StoredVariables(name: string, buffer: seq<byte>)
    | DefaultAppleFile(name: string, buffer: seq<byte>)
    | AppleworksWPFile(name: string, buffer: seq<byte>)
    | AppleworksADBFile(name: string, buffer: seq<byte>)
    | AppleworksSSFile(name: string, buffer: seq<byte>)
    | DeviceDriver(name: string, buffer: seq<byte>, auxType: int)
    | IconFile(name: string, buffer: seq<byte>)
    | SHRPictureFile(name: string, buffer: seq<byte>, fileType: int, auxType: int, endOfFile: int)
    | SHRPictureFile2(name: string, buffer: seq<byte>, fileType: int, auxType: int, endOfFile: int)
    | QuickDrawFont(name: string, buffer: seq<byte>, fileType: int, auxType: int)
    | FileTypeDescriptorTable(name: string, buffer: seq<byte>)
    | FileSystemTranslator(name: string, buffer: seq<byte>)
    | ErrorMessageFile(name: string, buffer: seq<byte>)

  /** The recognisers of the decoder classes, and whether building a given decoder throws. */
  datatype Recognizers = Recognizers(
    isShapeTable: seq<byte> -> bool,
    isHtml: seq<byte> -> bool,
    isPng: seq<byte> -> bool,
    isBmp: seq<byte> -> bool,
    isFont: seq<byte> -> bool,
    throws: DataSource -> bool)

  /** What the dispatch sees of a file: its name, aux type and end of file, the buffer read from
      its blocks, that buffer cut or padded to the end of file, and the buffer of the linked entry. */
  datatype FileView = FileView(
    name: string, fileType: byte, auxType: int, endOfFile: int,
    buffer: seq<byte>, exact: seq<byte>, link: Option<seq<byte>>)

  /** The file types dispatched to the binary cascade. */
  predicate IsBinaryFamily(fileType: int)
  {
    fileType == FILE_TYPE_BINARY || fileType == FILE_TYPE_RELOCATABLE || fileType == FILE_TYPE_SYS
    || fileType == FILE_TYPE_BAT || fileType == FILE_TYPE_USER_DEFINED_1
  }

  /** What a file that is not an image or anything else recognised is shown as: the exact buffer,
      with the rest of the block buffer attached only when there is a rest. */
  function AssemblerFallback(f: FileView): (r: DataSource)
    ensures r.AssemblerProgram? && r.name == f.name && r.buffer == f.exact && r.auxType == f.auxType
    ensures r.extra.Some? <==> |f.exact| < |f.buffer|
    ensures r.extra.Some? ==> |f.exact| + |r.extra.value| == |f.buffer|
    ensures r.extra.Some? && f.exact <= f.buffer ==> f.exact + r.extra.value == f.buffer
  {
    if |f.exact| < |f.buffer| then AssemblerProgram(f.name, f.exact, f.auxType, Some(f.buffer[|f.exact|..]))
    else AssemblerProgram(f.name, f.exact, f.auxType, None)
  }

  predicate HiResSized(f: FileView)
  {
    (f.endOfFile == 0x1FF8 || f.endOfFile == 0x1FFF || f.endOfFile == 0x2000 || f.endOfFile == 0x4000)
    && (f.auxType == 0x1FFF || f.auxType == 0x2000 || f.auxType == 0x4000)
  }

  /** The binary cascade, in source order: an ordered list of branches, each a guard and the
      decoder it builds; the first branch whose guard holds decides. */
  datatype Branch = ShapeBranch | HtmlBranch | GifPngBranch | BmpBranch | FontBranch
                  | LinkBranch | PackedBranch | HiResBranch | LodeRunnerBranch

  const BINARY_BRANCHES: seq<Branch> :=
    [ShapeBranch, HtmlBranch, GifPngBranch, BmpBranch, FontBranch, LinkBranch, PackedBranch,
     HiResBranch, LodeRunnerBranch]

  predicate Guard(rec: Recognizers, f: FileView, b: Branch)
  {
    match b
    case ShapeBranch => rec.isShapeTable(f.exact)
    case HtmlBranch => rec.isHtml(f.exact)
    case GifPngBranch => HiResFormats.IsGif(f.exact) || rec.isPng(f.exact)
    case BmpBranch => EndsWith(f.name, ".BMP") && rec.isBmp(f.exact)
    case FontBranch => EndsWith(f.name, ".FNT") && rec.isFont(f.exact)
    case LinkBranch => f.link.Some?
    case PackedBranch => EndsWith(f.name, ".PAC") || EndsWith(f.name, ".A2FC")
    case HiResBranch => HiResSized(f)
    case LodeRunnerBranch => f.endOfFile == 38400 && StartsWith(f.name, "LVL.")
  }

  function Build(f: FileView, b: Branch): DataSource
  {
    match b
    case ShapeBranch => ShapeTable(f.name, f.exact)
    case HtmlBranch => SimpleText(f.name, f.exact)
    case GifPngBranch => OriginalHiResImage(f.name, f.exact, f.auxType)
    case BmpBranch => OriginalHiResImage(f.name, f.exact, f.auxType)
    case FontBranch => FontFile(f.name, f.exact)
    case LinkBranch =>
      var other := if f.link.Some? then f.link.value else [];
      if EndsWith(f.name, ".AUX") then DoubleHiResImage(f.name, other, f.exact)
      else DoubleHiResImage(f.name, f.exact, other)
    case PackedBranch => PackedDoubleHiResImage(f.name, f.exact)
    case HiResBranch => OriginalHiResImage(f.name, f.exact, f.auxType)
    case LodeRunnerBranch => LodeRunner(f.name, f.exact)
  }

  /** The first branch whose guard holds builds the result; with none, the fallback does. */
  function FirstMatch(rec: Recognizers, f: FileView, bs: seq<Branch>): DataSource
  {
    if bs == [] then AssemblerFallback(f)
    else if Guard(rec, f, bs[0]) then Build(f, bs[0])
    else FirstMatch(rec, f, bs[1..])
  }

  /** First match means: the branch at the least index whose guard holds decides. */
  lemma {:induction false} FirstMatchPicksLeast(rec: Recognizers, f: FileView, bs: seq<Branch>, i: nat)
    requires i < |bs| && Guard(rec, f, bs[i])
    requires forall k :: 0 <= k < i ==> !Guard(rec, f, bs[k])
    ensures FirstMatch(rec, f, bs) == Build(f, bs[i])
  {
    if i > 0 {
      assert !Guard(rec, f, bs[0]);
      assert forall k :: 0 <= k < i - 1 ==> bs[1..][k] == bs[k + 1];
      FirstMatchPicksLeast(rec, f, bs[1..], i - 1);
    }
  }

  /** With no guard holding, the fallback decides. */
  lemma {:induction false} FirstMatchFallsBack(rec: Recognizers, f: FileView, bs: seq<Branch>)
    requires forall k :: 0 <= k < |bs| ==> !Guard(rec, f, bs[k])
    ensures FirstMatch(rec, f, bs) == AssemblerFallback(f)
  {
    if bs != [] {
      assert !Guard(rec, f, bs[0]);
      assert forall k :: 0 <= k < |bs| - 1 ==> bs[1..][k] == bs[k + 1];
      FirstMatchFallsBack(rec, f, bs[1..]);
    }
  }

  function BinaryFile(rec: Recognizers, f: FileView): DataSource
  {
    FirstMatch(rec, f, BINARY_BRANCHES)
  }

  /** What first match decides: either some branch whose guard holds, all before it failing, or
      the fallback with every guard failing. */
  lemma {:induction false} FirstMatchCases(rec: Recognizers, f: FileView, bs: seq<Branch>)
    ensures (exists i :: 0 <= i < |bs| && Guard(rec, f, bs[i]) && FirstMatch(rec, f, bs) == Build(f, bs[i])
                        && forall k :: 0 <= k < i ==> !Guard(rec, f, bs[k]))
            || ((forall k :: 0 <= k < |bs| ==> !Guard(rec, f, bs[k])) && FirstMatch(rec, f, bs) == AssemblerFallback(f))
  {
    if bs != [] && !Guard(rec, f, bs[0]) {
      FirstMatchCases(rec, f, bs[1..]);
      if i :| 0 <= i < |bs| - 1 && Guard(rec, f, bs[1..][i]) && FirstMatch(rec, f, bs[1..]) == Build(f, bs[1..][i])
               && forall k :: 0 <= k < i ==> !Guard(rec, f, bs[1..][k]) {
        assert Guard(rec, f, bs[i + 1]) && FirstMatch(rec, f, bs) == Build(f, bs[i + 1]);
        forall k | 0 <= k < i + 1
          ensures !Guard(rec, f, bs[k])
        {
          if k > 0 { assert bs[k] == bs[1..][k - 1]; }
        }
      } else {
        forall k | 0 <= k < |bs|
          ensures !Guard(rec, f, bs[k])
        {
          if k > 0 { assert bs[k] == bs[1..][k - 1]; }
        }
      }
    } else if bs != [] {
      assert Guard(rec, f, bs[0]) && FirstMatch(rec, f, bs) == Build(f, bs[0]);
    }
  }

  /** An image is only chosen when the file is a GIF or PNG, a recognised BMP, or has a hi-res
      screen's size and load address. */
  lemma BinaryHiResNeeds(rec: Recognizers, f: FileView)
    requires BinaryFile(rec, f).OriginalHiResImage?
    ensures HiResFormats.IsGif(f.exact) || rec.isPng(f.exact)
            || (EndsWith(f.name, ".BMP") && rec.isBmp(f.exact)) || HiResSized(f)
  {
    FirstMatchCases(rec, f, BINARY_BRANCHES);
  }

  /** With a linked entry the pair is shown as one double hi-res image; an .AUX file puts the
      linked file's buffer first. */
  lemma BinaryLinkOrder(rec: Recognizers, f: FileView)
    requires f.link.Some?
    requires forall k :: 0 <= k < 5 ==> !Guard(rec, f, BINARY_BRANCHES[k])
    ensures EndsWith(f.name, ".AUX") ==> BinaryFile(rec, f) == DoubleHiResImage(f.name, f.link.value, f.exact)
    ensures !EndsWith(f.name, ".AUX") ==> BinaryFile(rec, f) == DoubleHiResImage(f.name, f.exact, f.link.value)
  {
    FirstMatchPicksLeast(rec, f, BINARY_BRANCHES, 5);
  }

  /** The file-type switch inside the `try` block. */
  function DecodeByType(rec: Recognizers, f: FileView, totalBlocks: int, freeBlocks: int, usedBlocks: int): DataSource
  {
    var t := f.fileType as int;
    if IsBinaryFamily(t) then BinaryFile(rec, f)
    else if t == FILE_TYPE_TEXT then
      (if EndsWith(f.name, ".S") then MerlinSource(f.name, f.exact, f.auxType, f.endOfFile)
       else TextFile(f.name, f.exact, f.auxType, f.endOfFile))
    else if t == FILE_TYPE_APPLESOFT_BASIC then BasicProgram(f.name, f.exact)
    else if t == FILE_TYPE_INTEGER_BASIC then IntegerBasicProgram(f.name, f.exact)
    else if t == FILE_TYPE_DIRECTORY then ProdosDirectory(f.name, f.buffer, totalBlocks, freeBlocks, usedBlocks)
    else if t == FILE_TYPE_APPLESOFT_BASIC_VARS then
      (if f.endOfFile == 0 then StoredVariables(f.name, f.buffer) else StoredVariables(f.name, f.exact))
    else if t == FILE_TYPE_APPLETALK then DefaultAppleFile(f.name + " (Appletalk file)", f.buffer)
    else if t == FILE_TYPE_GWP then SimpleText(f.name, f.exact)
    else if t == FILE_TYPE_AWP then AppleworksWPFile(f.name + " (Appleworks Word Processor)", f.buffer)
    else if t == FILE_TYPE_ADB then AppleworksADBFile(f.name + " (Appleworks Database File)", f.buffer)
    else if t == FILE_TYPE_ASP then AppleworksSSFile(f.name + " (Appleworks Spreadsheet File)", f.buffer)
    else if t == FILE_TYPE_IIGS_SOURCE then SimpleText(f.name, f.exact)
    else if t == FILE_TYPE_IIGS_APPLICATION then AssemblerProgram(f.name, f.buffer, f.auxType, None)
    else if t == FILE_TYPE_IIGS_DEVICE_DRIVER then DeviceDriver(f.name, f.exact, f.auxType)
    else if t == FILE_TYPE_ICN then IconFile(f.name, f.exact)
    else if t == FILE_TYPE_PNT then
      (if f.auxType == 2 then SHRPictureFile(f.name, f.exact, t, f.auxType, f.endOfFile)
       else SHRPictureFile2(f.name, f.exact, t, f.auxType, f.endOfFile))
    else if t == FILE_TYPE_PIC then SHRPictureFile2(f.name, f.exact, t, f.auxType, f.endOfFile)
    else if t == FILE_TYPE_FONT then QuickDrawFont(f.name, f.exact, t, f.auxType)
    else if t == FILE_TYPE_DESCRIPTOR_TABLE then FileTypeDescriptorTable(f.name, f.exact)
    else if t == FILE_TYPE_GSOS_FILE_SYSTEM_TRANSLATOR then FileSystemTranslator(f.name, f.exact)
    else DefaultAppleFile(f.name, f.exact)
  }

  /** Whether the decoder for this file type is given the whole block buffer rather than the
      buffer cut to the end of file. */
  predicate TakesBlockBuffer(fileType: int, endOfFile: int)
  {
    fileType == FILE_TYPE_DIRECTORY || fileType == FILE_TYPE_APPLETALK || fileType == FILE_TYPE_AWP
    || fileType == FILE_TYPE_ADB || fileType == FILE_TYPE_ASP || fileType == FILE_TYPE_IIGS_APPLICATION
    || (fileType == FILE_TYPE_APPLESOFT_BASIC_VARS && endOfFile == 0)
  }

  /** Outside the binary cascade, every decoder gets exactly one of the two buffers: the block
      buffer for directories, AppleTalk, AppleWorks, IIgs applications and empty stored variables,
      the exact buffer for everything else. */
  lemma DecodeBufferChoice(rec: Recognizers, f: FileView, totalBlocks: int, freeBlocks: int, usedBlocks: int)
    requires !IsBinaryFamily(f.fileType as int)
    ensures !DecodeByType(rec, f, totalBlocks, freeBlocks, usedBlocks).RandomAccessTextFile?
    ensures DecodeByType(rec, f, totalBlocks, freeBlocks, usedBlocks).buffer ==
            if TakesBlockBuffer(f.fileType as int, f.endOfFile) then f.buffer else f.exact
  {
  }

  /** Any exception thrown while building the decoder turns into an error view over the block buffer. */
  function Decode(rec: Recognizers, f: FileView, totalBlocks: int, freeBlocks: int, usedBlocks: int): DataSource
  {
    var d := DecodeByType(rec, f, totalBlocks, freeBlocks, usedBlocks);
    if rec.throws(d) then ErrorMessageFile(f.name, f.buffer) else d
  }
}
