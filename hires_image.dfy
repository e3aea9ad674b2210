/** The hi-res image object: the drawing methods that write a screen into an image array through the
    280-pixel line every image shares, the monochrome and super hi-res gray screens, and the two
    ways an image is built. Each method is proved against the functions of HiResLines and
    HiResFormats. */
module HiResImageView {
  import opened Util
  import opened HiResLines
  import opened HiResFormats

  /** The state all images share: the static `line` buffer and the static `colourQuirks` switch. */
  class Display {
    const line: array<int>
    var colourQuirks: bool

    constructor()
      ensures line.Length == LINE_WIDTH && fresh(line)
      ensures forall x :: 0 <= x < LINE_WIDTH ==> line[x] == BLACK
      ensures !colourQuirks
    {
      line := new int[LINE_WIDTH](_ => BLACK);
      colourQuirks := false;
    }

    /** `setDefaultColourQuirks`: the switch for images drawn from now on. */
    method SetDefaultColourQuirks(value: bool)
      modifies this
      ensures colourQuirks == value
    {
      colourQuirks := value;
    }
  }

  /** The masks `drawMonochrome` tests a byte with, bit 6 first. */
  const MASK: seq<int> := [0x40, 0x20, 0x10, 0x08, 0x04, 0x02, 0x01]

  /** Mask entry m selects bit 6 - m. */
  lemma MaskBit(m: nat)
    requires m < 7
    ensures MASK[m] == Pow2(6 - m)
  {
    assert Pow2(1) == 2 && Pow2(2) == 4 && Pow2(3) == 8;
    assert Pow2(4) == 16 && Pow2(5) == 32 && Pow2(6) == 64;
  }

  /** The two files the first constructor unscrunches before drawing. */
  predicate ScrunchedName(name: string)
  {
    name == "FLY LOGO" || name == "BIGBAT.PAC"
  }

  class HiResImage {
    const display: Display
    const name: string
    /** The bytes drawn: the file's buffer, or its unscrunched screen. */
    var buffer: seq<byte>
    const fileType: int
    const auxType: int
    /** The unpacked super hi-res screen, once it has been unpacked. */
    var unpackedBuffer: Option<seq<byte>>
    /** The pixels of the image, row after row; null when nothing was drawn. */
    var image: array?<int>
    /** The construction threw: a malformed scrunched or packed buffer. */
    var failed: bool

    /** The fill of `drawLine`: seven pixels for each byte the buffer holds of the row at base,
        black for a clear bit and otherwise the palette colour of the byte's bit 7 and the column;
        the rest of the shared line keeps what it held. */
    method FillLine(base: nat)
      requires display.line.Length == LINE_WIDTH
      modifies display.line
      ensures display.line[..] == Filled(old(display.line[..]), buffer, base)
    {
      var line := display.line;
      ghost var prev := line[..];
      var max := if base + ROW_BYTES < |buffer| then base + ROW_BYTES else |buffer|;
      var linePtr := 0;
      var ptr := base;
      while ptr < max
        invariant base <= ptr && ptr - base <= RowLength(|buffer|, base)
        invariant linePtr == 7 * (ptr - base)
        invariant line[..] == FilledTo(prev, buffer, base, linePtr)
      {
        var colourBit := buffer[ptr] / 128;
        var value := buffer[ptr] % 128;
        var px := 0;
        while px < 7
          invariant 0 <= px <= 7 && linePtr == 7 * (ptr - base) + px
          invariant line[..] == FilledTo(prev, buffer, base, linePtr)
        {
          var val := Bit(value, px);
          var column := (ptr + px) % 2;
          FilledToNext(prev, buffer, base, ptr, px);
          line[linePtr] := if val == 0 then BLACK else Palette(colourBit, column);
          linePtr := linePtr + 1;
          px := px + 1;
        }
        ptr := ptr + 1;
      }
    }

    /** The white merge of `drawLine`: left to right, two adjacent non-black pixels both become
        white. */
    method MergeLine()
      requires display.line.Length == LINE_WIDTH
      modifies display.line
      ensures display.line[..] == Merged(old(display.line[..]))
    {
      var line := display.line;
      var x := 0;
      while x < line.Length - 1
        invariant 0 <= x <= LINE_WIDTH - 1
        invariant MergeFrom(line[..], x) == Merged(old(line[..]))
      {
        ghost var before := line[..];
        if line[x] != BLACK && line[x + 1] != BLACK {
          line[x + 1] := WHITE;
          line[x] := WHITE;
        }
        assert line[..] == MergeStep(before, x);
        x := x + 1;
      }
    }

    /** The colour quirks of `drawLine`: each window of four pixels, left to right, recolours a
        black pixel by one of the four rules. */
    method QuirksLine()
      requires display.line.Length == LINE_WIDTH
      modifies display.line
      ensures display.line[..] == Quirked(old(display.line[..]))
    {
      var line := display.line;
      var x := 0;
      while x < line.Length - 3
        invariant 0 <= x <= LINE_WIDTH - 3
        invariant QuirksFrom(line[..], x) == Quirked(old(line[..]))
      {
        ghost var before := line[..];
        var px0, px1, px2, px3 := line[x], line[x + 1], line[x + 2], line[x + 3];
        if px1 == BLACK {
          if px3 == BLACK && px0 == px2 && IsColoured(px0) {
            line[x + 1] := px0;
          } else if px3 == WHITE && px2 == WHITE && IsColoured(px0) {
            line[x + 1] := px0;
          }
        } else if px2 == BLACK {
          if px0 == BLACK && px1 == px3 && IsColoured(px3) {
            line[x + 2] := px3;
          } else if px0 == WHITE && px1 == WHITE && IsColoured(px3) {
            line[x + 2] := px3;
          }
        }
        assert line[..] == QuirkStep(before, x);
        x := x + 1;
      }
    }

    /** `drawLine`: fills the shared line from the row at base, merges, applies the colour quirks
        when they are on, and copies the line into the image at element; the rest of the image is
        left as it was. */
    method DrawLine(element: nat, base: nat) returns (next: nat)
      requires image != null && image != display.line && display.line.Length == LINE_WIDTH
      requires element + LINE_WIDTH <= image.Length
      modifies display.line, image
      ensures display.line[..] == DrawnLine(old(display.line[..]), buffer, base, display.colourQuirks)
      ensures next == element + LINE_WIDTH
      ensures image[..next] == old(image[..element]) + display.line[..]
      ensures image[next..] == old(image[next..])
    {
      FillLine(base);
      MergeLine();
      if display.colourQuirks {
        QuirksLine();
      }
      var line := display.line;
      next := element;
      var i := 0;
      while i < line.Length
        modifies image
        invariant 0 <= i <= LINE_WIDTH && next == element + i
        invariant image[..next] == old(image[..element]) + line[..i]
        invariant image[element + LINE_WIDTH..] == old(image[element + LINE_WIDTH..])
      {
        image[next] := line[i];
        assert line[..i + 1] == line[..i] + [line[i]];
        next := next + 1;
        i := i + 1;
      }
    }

    /** The first constructor: a hi-res screen, unscrunched first when it is one of the two files
        known to be scrunched (a malformed one throws). A GIF is left to the image decoder; any other
        buffer is drawn in colour, with the row count taken from the length of the bytes as given. */
    constructor (display: Display, name: string, buf: seq<byte>)
      requires display.line.Length == LINE_WIDTH
      modifies display.line
      ensures this.display == display && this.name == name && fileType == 0 && auxType == 0
      ensures unpackedBuffer.None?
      ensures failed <==> ScrunchedName(name) && Unscrunched(buf, 0, []).None?
      ensures !failed ==> buffer == if ScrunchedName(name) then Unscrunched(buf, 0, []).value else buf
      ensures failed || IsGif(buf) ==> image == null && display.line[..] == old(display.line[..])
      ensures !failed && !IsGif(buf) ==>
                image != null && fresh(image) &&
                (image[..], display.line[..])
                == ColourImage(old(display.line[..]), buffer, Rows(|buf|), display.colourQuirks)
    {
      this.display := display;
      this.name := name;
      fileType := 0;
      auxType := 0;
      unpackedBuffer := None;
      image := null;
      buffer := buf;
      failed := false;
      new;
      if ScrunchedName(name) {
        var dst := Unscrunch(buf);
        if dst.None? {
          failed := true;
          return;
        }
        buffer := dst.value;
      }
      if !IsGif(buf) {
        DrawColour(buf);
      }
    }

    /** The second constructor: a file with a file type and an aux type. A packed super hi-res
        image (type 0xC0, aux 1) is unpacked and drawn as a gray screen, and a malformed one
        throws; nothing is drawn for any other pair. */
    constructor Typed(display: Display, name: string, buf: seq<byte>, fileType: int, auxType: int)
      ensures this.display == display && this.name == name && buffer == buf
      ensures this.fileType == fileType && this.auxType == auxType
      ensures fileType == 0xC0 && auxType == 1 ==>
                (failed <==> Unpack(buf).None?) &&
                (!failed ==> unpackedBuffer == Unpack(buf) && image != null && fresh(image) &&
                             image[..] == Screen2(Unpack(buf).value))
      ensures !(fileType == 0xC0 && auxType == 1) ==> !failed && unpackedBuffer.None? && image == null
    {
      this.display := display;
      this.name := name;
      this.fileType := fileType;
      this.auxType := auxType;
      unpackedBuffer := None;
      image := null;
      buffer := buf;
      failed := false;
      new;
      if fileType == 0xC0 && auxType == 1 {
        var unpacked := UnpackBytes(buf);
        if unpacked.None? {
          failed := true;
          return;
        }
        unpackedBuffer := unpacked;
        MakeScreen2(unpacked.value);
      }
    }

    /** `setColourQuirks`: switching the quirks to the value they already have changes nothing;
        otherwise the switch is set and the image is drawn again from the buffer. */
    method SetColourQuirks(value: bool)
      requires display.line.Length == LINE_WIDTH
      modifies this, display, display.line
      ensures display.colourQuirks == value
      ensures buffer == old(buffer) && unpackedBuffer == old(unpackedBuffer) && failed == old(failed)
      ensures old(display.colourQuirks) == value ==>
                image == old(image) && display.line[..] == old(display.line[..])
      ensures old(display.colourQuirks) != value ==>
                image != null && fresh(image) &&
                (image[..], display.line[..]) == ColourImage(old(display.line[..]), buffer, Rows(|buffer|), value)
    {
      if display.colourQuirks == value {
        return;
      }
      display.colourQuirks := value;
      DrawColour(buffer);
    }

    /** `drawColour`: a new image 280 pixels wide with Rows(|buf|) rows, filled row by row by
        DrawLine in the order of the four nested loops over field, third, octet and line. */
    method DrawColour(buf: seq<byte>)
      requires display.line.Length == LINE_WIDTH
      modifies this, display.line
      ensures image != null && fresh(image)
      ensures (image[..], display.line[..])
              == ColourImage(old(display.line[..]), buffer, Rows(|buf|), display.colourQuirks)
      ensures buffer == old(buffer) && unpackedBuffer == old(unpackedBuffer) && failed == old(failed)
    {
      var rows := Rows(|buf|);
      var img := new int[LINE_WIDTH * rows];
      image := img;
      assert rows == FIELD_ROWS * (rows / FIELD_ROWS);
      ghost var prev := display.line[..];
      ghost var addrs: seq<nat> := [];
      var element := 0;
      var z := 0;
      while z < rows / FIELD_ROWS
        modifies display.line, img
        invariant 0 <= z <= rows / FIELD_ROWS && |addrs| == FIELD_ROWS * z && element == LINE_WIDTH * |addrs|
        invariant AtRowAddresses(addrs)
        invariant (image[..element], display.line[..]) == ColourAlong(prev, buffer, addrs, display.colourQuirks)
      {
        var i := 0;
        while i < 3
          modifies display.line, img
          invariant 0 <= i <= 3 && |addrs| == FIELD_ROWS * z + 64 * i && element == LINE_WIDTH * |addrs|
          invariant AtRowAddresses(addrs)
          invariant (image[..element], display.line[..]) == ColourAlong(prev, buffer, addrs, display.colourQuirks)
        {
          element, addrs := DrawThird(element, z, i, prev, addrs, rows);
          i := i + 1;
        }
        z := z + 1;
      }
      assert img[..] == img[..element];
      AtRowAddressesAll(addrs);
    }

    /** The two inner loops of `drawColour` for third i of field z: each of its 64 rows drawn by
        DrawLine from the base the loops compute, into the image after the rows before. */
    method DrawThird(element: nat, z: nat, i: nat, ghost prev: seq<int>, ghost addrs: seq<nat>, ghost rows: nat)
      returns (next: nat, ghost drawn: seq<nat>)
      requires image != null && image != display.line && display.line.Length == LINE_WIDTH
      requires |prev| == LINE_WIDTH && i < 3 && |addrs| == FIELD_ROWS * z + 64 * i && |addrs| + 64 <= rows
      requires AtRowAddresses(addrs)
      requires element == LINE_WIDTH * |addrs| && image.Length == LINE_WIDTH * rows
      requires (image[..element], display.line[..]) == ColourAlong(prev, buffer, addrs, display.colourQuirks)
      modifies display.line, image
      ensures |drawn| == |addrs| + 64 && next == LINE_WIDTH * |drawn|
      ensures AtRowAddresses(drawn)
      ensures (image[..next], display.line[..]) == ColourAlong(prev, buffer, drawn, display.colourQuirks)
    {
      drawn := addrs;
      next := element;
      var j := 0;
      while j < 8
        invariant 0 <= j <= 8 && |drawn| == |addrs| + 8 * j && next == LINE_WIDTH * |drawn|
        invariant AtRowAddresses(drawn)
        invariant (image[..next], display.line[..]) == ColourAlong(prev, buffer, drawn, display.colourQuirks)
      {
        var k := 0;
        while k < 8
          invariant 0 <= k <= 8 && |drawn| == |addrs| + 8 * j + k && next == LINE_WIDTH * |drawn|
          invariant AtRowAddresses(drawn)
          invariant (image[..next], display.line[..]) == ColourAlong(prev, buffer, drawn, display.colourQuirks)
        {
          var base: nat := i * 0x28 + j * 0x80 + k * 0x400 + z * 0x2000;
          RowOrder(|drawn|, z, i, j, k);
          AtRowAddressesSnoc(drawn, base);
          ColourAlongSnoc(prev, buffer, drawn, base, display.colourQuirks);
          next := DrawLine(next, base);
          drawn := drawn + [base];
          k := k + 1;
        }
        j := j + 1;
      }
    }

    /** `drawMonochrome`: a new gray image 280 pixels wide with Rows(|buf|) rows, into which the
        lit pixels of every row's bytes are written back to back, a zero byte skipping seven. */
    method DrawMonochrome(buf: seq<byte>)
      modifies this
      ensures image != null && fresh(image) && image[..] == MonochromeImage(buf)
      ensures buffer == old(buffer) && unpackedBuffer == old(unpackedBuffer) && failed == old(failed)
    {
      image := MonochromePixels(buf);
    }

    /** The image array of `drawMonochrome`, created zeroed and filled by the four nested loops. */
    static method MonochromePixels(buf: seq<byte>) returns (img: array<int>)
      ensures fresh(img) && img[..] == MonochromeImage(buf)
    {
      var rows := Rows(|buf|);
      img := new int[LINE_WIDTH * rows](_ => 0);
      assert rows == FIELD_ROWS * (rows / FIELD_ROWS);
      ghost var addrs: seq<nat> := [];
      var element := 0;
      var z := 0;
      while z < rows / FIELD_ROWS
        modifies img
        invariant 0 <= z <= rows / FIELD_ROWS && |addrs| == FIELD_ROWS * z && AtRowAddresses(addrs)
        invariant element == |MonoAlong(buf, addrs)| && img[..element] == MonoAlong(buf, addrs)
        invariant forall e :: element <= e < img.Length ==> img[e] == 0
      {
        var i := 0;
        while i < 3
          modifies img
          invariant 0 <= i <= 3 && |addrs| == FIELD_ROWS * z + 64 * i && AtRowAddresses(addrs)
          invariant element == |MonoAlong(buf, addrs)| && img[..element] == MonoAlong(buf, addrs)
          invariant forall e :: element <= e < img.Length ==> img[e] == 0
        {
          element, addrs := DrawMonochromeThird(img, buf, element, z, i, addrs, rows);
          i := i + 1;
        }
        z := z + 1;
      }
      MonochromeImageFrom(img[..], buf, addrs);
    }

    /** The two inner loops of `drawMonochrome` for third i of field z: the pixels of each of its
        64 rows written after those of the rows before. */
    static method DrawMonochromeThird(img: array<int>, buf: seq<byte>, element: nat, z: nat, i: nat,
                                      ghost addrs: seq<nat>, ghost rows: nat)
      returns (next: nat, ghost drawn: seq<nat>)
      requires i < 3 && |addrs| == FIELD_ROWS * z + 64 * i && |addrs| + 64 <= rows && AtRowAddresses(addrs)
      requires img.Length == LINE_WIDTH * rows
      requires element == |MonoAlong(buf, addrs)| && img[..element] == MonoAlong(buf, addrs)
      requires forall e :: element <= e < img.Length ==> img[e] == 0
      modifies img
      ensures |drawn| == |addrs| + 64 && AtRowAddresses(drawn)
      ensures next == |MonoAlong(buf, drawn)| && img[..next] == MonoAlong(buf, drawn)
      ensures forall e :: next <= e < img.Length ==> img[e] == 0
    {
      drawn := addrs;
      next := element;
      var j := 0;
      while j < 8
        invariant 0 <= j <= 8 && |drawn| == |addrs| + 8 * j && AtRowAddresses(drawn)
        invariant next == |MonoAlong(buf, drawn)| && img[..next] == MonoAlong(buf, drawn)
        invariant forall e :: next <= e < img.Length ==> img[e] == 0
      {
        var k := 0;
        while k < 8
          invariant 0 <= k <= 8 && |drawn| == |addrs| + 8 * j + k && AtRowAddresses(drawn)
          invariant next == |MonoAlong(buf, drawn)| && img[..next] == MonoAlong(buf, drawn)
          invariant forall e :: next <= e < img.Length ==> img[e] == 0
        {
          var base: nat := i * 0x28 + j * 0x80 + k * 0x400 + z * 0x2000;
          RowOrder(|drawn|, z, i, j, k);
          AtRowAddressesSnoc(drawn, base);
          MonoAlongSnoc(buf, drawn, base);
          next := DrawMonochromeRow(img, buf, base, next, MonoAlong(buf, drawn));
          drawn := drawn + [base];
          k := k + 1;
        }
        j := j + 1;
      }
    }

    /** The loop of `drawMonochrome` over the bytes of the row at base: seven pixels per byte
        written from element on, a zero byte skipped without writing. */
    static method DrawMonochromeRow(img: array<int>, buf: seq<byte>, base: nat, element: nat, ghost acc: seq<int>)
      returns (next: nat)
      requires element == |acc| && element + LINE_WIDTH <= img.Length && img[..element] == acc
      requires forall e :: element <= e < img.Length ==> img[e] == 0
      modifies img
      ensures next == |acc| + 7 * RowLength(|buf|, base) && next <= img.Length
      ensures img[..next] == acc + MonoBytes(RowSlice(buf, base))
      ensures forall e :: next <= e < img.Length ==> img[e] == 0
    {
      var max := if base + ROW_BYTES < |buf| then base + ROW_BYTES else |buf|;
      ghost var row := RowSlice(buf, base);
      ghost var done := 0;
      next := element;
      var ptr := base;
      while ptr < max
        invariant done == ptr - base && (ptr <= max || done == 0) && done <= |row|
        invariant next == |acc| + 7 * done && img[..next] == acc + MonoBytes(row[..done])
        invariant forall e :: next <= e < img.Length ==> img[e] == 0
      {
        var val := buf[ptr];
        ghost var pre := img[..next];
        assert row[done] == val;
        MonoBytesSnoc(row, done);
        assert acc + MonoBytes(row[..done + 1]) == pre + MonoByte(val);
        next := DrawMonochromeByte(img, val, next, pre);
        done := done + 1;
        ptr := ptr + 1;
      }
      assert row[..done] == row;
    }

    /** The body of `drawMonochrome`'s loop over a row's bytes: a zero byte skips seven pixels;
        any other has its bits 0 to 6 tested in turn, each set one lighting its pixel. */
    static method DrawMonochromeByte(img: array<int>, val: byte, element: nat, ghost pre: seq<int>)
      returns (next: nat)
      requires element == |pre| && element + 7 <= img.Length && img[..element] == pre
      requires forall e :: element <= e < img.Length ==> img[e] == 0
      modifies img
      ensures next == element + 7
      ensures img[..next] == pre + MonoByte(val)
      ensures forall e :: next <= e < img.Length ==> img[e] == 0
    {
      if val == 0 {
        MonoZeroByte();
        assert img[..element + 7] == pre + MonoByte(val);
        return element + 7;
      }
      next := element;
      var bit := 6;
      while bit >= 0
        invariant -1 <= bit <= 6 && next == element + 6 - bit
        invariant img[..next] == pre + MonoByte(val)[..6 - bit]
        invariant forall e :: next <= e < img.Length ==> img[e] == 0
      {
        MaskBit(bit);
        // `val & mask[bit]` is bit 6 - bit of the byte's low seven bits
        if (val % 128) / MASK[bit] % 2 != 0 {
          img[next] := 255;
        }
        assert MonoByte(val)[..6 - bit + 1] == MonoByte(val)[..6 - bit] + [MonoPixel(val, 6 - bit)];
        next := next + 1;
        bit := bit - 1;
      }
    }

    /** `makeScreen2`: a new 320 x 200 gray image, two pixels per byte of the first 32000 bytes,
        high nibble first, each lit when its nibble is not zero. */
    method MakeScreen2(buf: seq<byte>)
      requires |buf| >= 32000
      modifies this
      ensures image != null && fresh(image) && image[..] == Screen2(buf)
      ensures buffer == old(buffer) && unpackedBuffer == old(unpackedBuffer) && failed == old(failed)
    {
      var img := new int[64000](_ => 0);
      image := img;
      var element, ptr := 0, 0;
      var row := 0;
      while row < 200
        modifies img
        invariant 0 <= row <= 200 && ptr == 160 * row && element == 2 * ptr
        invariant forall p :: 0 <= p < ptr ==> img[2 * p] == Gray(buf[p] / 16) && img[2 * p + 1] == Gray(buf[p] % 16)
        invariant forall e :: element <= e < img.Length ==> img[e] == 0
      {
        var col := 0;
        while col < 160
          modifies img
          invariant 0 <= col <= 160 && ptr == 160 * row + col && element == 2 * ptr
          invariant forall p :: 0 <= p < ptr ==> img[2 * p] == Gray(buf[p] / 16) && img[2 * p + 1] == Gray(buf[p] % 16)
          invariant forall e :: element <= e < img.Length ==> img[e] == 0
        {
          var pix1 := buf[ptr] / 16;
          var pix2 := buf[ptr] % 16;
          if pix1 > 0 {
            img[element] := 255;
          }
          if pix2 > 0 {
            img[element + 1] := 255;
          }
          element := element + 2;
          ptr := ptr + 1;
          col := col + 1;
        }
        row := row + 1;
      }
      ScreenPixels(img[..], buf);
    }

    /** The aux-type line of `getText`. For a packed super hi-res image not yet unpacked, the
        buffer is unpacked first, and None stands for the exception a malformed one throws. */
    method GetAuxText() returns (text: Option<string>)
      modifies this
      ensures buffer == old(buffer) && image == old(image) && failed == old(failed)
      ensures fileType == 192 && auxType == 1 && old(unpackedBuffer).None? ==> unpackedBuffer == Unpack(buffer)
      ensures !(fileType == 192 && auxType == 1 && old(unpackedBuffer).None?) ==> unpackedBuffer == old(unpackedBuffer)
      ensures text.None? <==> fileType == 192 && auxType == 1 && unpackedBuffer.None?
      ensures text.Some? ==> text.value == AuxText(fileType, auxType)
    {
      if fileType == 192 && auxType == 1 && unpackedBuffer.None? {
        unpackedBuffer := UnpackBytes(buffer);
        if unpackedBuffer.None? {
          return None;
        }
      }
      text := Some(AuxText(fileType, auxType));
    }
  }
}
