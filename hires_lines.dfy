/** The Apple II hi-res screen as the image view draws it: the interleaved row addresses, the
    seven-pixels-per-byte colour mapping, and the two passes over each 280-pixel line (the white
    merge and the optional colour quirks). Everything here is a function of values; the drawing
    methods that update the shared line buffer in place are proved against these functions. */
module HiResLines {
  import opened Util

  const WHITE := 0xFFFFFF
  const BLACK := 0x000000
  const RED := 0xFF0000
  const GREEN := 0x00FF00
  const BLUE := 0x0000FF
  const VIOLET := 0xBB66FF

  /** Pixels in a drawn line, bytes in a screen row, rows in a screen field. */
  const LINE_WIDTH := 280
  const ROW_BYTES := 40
  const FIELD_ROWS := 192
  const FIELD_SIZE := 0x2000

  /** `colours[colourBit][column]`: violet and green for colour bit 0, blue and red for 1. */
  function Palette(colourBit: int, column: int): int
  {
    if colourBit == 0 then (if column == 0 then VIOLET else GREEN)
    else (if column == 0 then BLUE else RED)
  }

  /** `isColoured`: neither black nor white. */
  predicate IsColoured(pixel: int)
  {
    pixel != BLACK && pixel != WHITE
  }

  /** Every palette entry is one of the four colours, and none is black or white. */
  lemma PaletteColours(colourBit: int, column: int)
    ensures Palette(colourBit, column) in {VIOLET, GREEN, BLUE, RED}
    ensures IsColoured(Palette(colourBit, column))
  {
  }

  // ----------------------------------------------------------------------------------------------
  // screen layout

  /** The address of the first byte of a screen row: `i*0x28 + j*0x80 + k*0x400 + z*0x2000`. */
  function RowBase(z: nat, i: nat, j: nat, k: nat): nat
  {
    i * 0x28 + j * 0x80 + k * 0x400 + z * 0x2000
  }

  /** The row count: one field for a buffer of at most 8192 bytes, two otherwise. */
  function Rows(length: int): nat
  {
    if length <= 8192 then 192 else 384
  }

  /** The base of image row r, in the order the drawing loops visit (z, i, j, k). */
  function RowAddress(r: nat): nat
  {
    RowBase(r / FIELD_ROWS, r % FIELD_ROWS / 64, r % 64 / 8, r % 8)
  }

  /** The drawing loops (z outermost, then i, j, k) visit row z*192 + i*64 + j*8 + k. */
  lemma RowOrder(r: nat, z: nat, i: nat, j: nat, k: nat)
    requires i < 3 && j < 8 && k < 8 && r == z * 192 + i * 64 + j * 8 + k
    ensures RowAddress(r) == RowBase(z, i, j, k)
  {
    var m := i * 64 + j * 8 + k;
    FieldSplit(r, z, m);
    ThirdSplit(m, i, j, k);
  }

  /** Row z*192 + m of the image is row m of field z, with m's offsets within a third and an octet. */
  lemma FieldSplit(r: nat, z: nat, m: nat)
    requires m < 192 && r == z * 192 + m
    ensures r / 192 == z && r % 192 == m && r % 64 == m % 64 && r % 8 == m % 8
  {
    ModShift64(3 * z, m);
    ModShift8(24 * z, m);
  }

  /** Whole multiples of 64 do not change a remainder by 64. */
  lemma ModShift64(t: nat, m: nat)
    ensures (t * 64 + m) % 64 == m % 64
  {
  }

  /** Whole multiples of 8 do not change a remainder by 8. */
  lemma ModShift8(t: nat, m: nat)
    ensures (t * 8 + m) % 8 == m % 8
  {
  }

  /** Row i*64 + j*8 + k of a field is line k of octet j of third i. */
  lemma ThirdSplit(m: nat, i: nat, j: nat, k: nat)
    requires i < 3 && j < 8 && k < 8 && m == i * 64 + j * 8 + k
    ensures m / 64 == i && m % 64 / 8 == j && m % 8 == k
  {
    assert m % 64 == j * 8 + k;
    assert m == (8 * i + j) * 8 + k;
  }

  /** Each row lies within its field: its 40 bytes end by (z+1)*0x2000. */
  lemma RowBaseBounds(z: nat, i: nat, j: nat, k: nat)
    requires i < 3 && j < 8 && k < 8
    ensures z * FIELD_SIZE <= RowBase(z, i, j, k)
    ensures RowBase(z, i, j, k) + ROW_BYTES <= (z + 1) * FIELD_SIZE
  {
  }

  /** The image row whose bytes start at a: the field, then line k, octet j and third i read back
      out of the offset within the field. */
  function RowOfBase(a: nat): nat
  {
    var m := a % FIELD_SIZE;
    a / FIELD_SIZE * FIELD_ROWS + m % 0x80 / 0x28 * 64 + m % 0x400 / 0x80 * 8 + m / 0x400
  }

  /** The offset of a row within its field splits back into third, octet and line. */
  lemma OffsetDecode(i: nat, j: nat, k: nat)
    requires i < 3 && j < 8 && k < 8
    ensures var m := i * 0x28 + j * 0x80 + k * 0x400;
            m < FIELD_SIZE && m % 0x80 / 0x28 == i && m % 0x400 / 0x80 == j && m / 0x400 == k
  {
    var low := i * 0x28 + j * 0x80;
    OctetSplit(i, j);
    LineSplit(low, k);
    assert (i * 0x28 + j * 0x80 + k * 0x400) % 0x80 == i * 0x28 by {
      OctetSplit(i, 8 * k + j);
    }
  }

  /** i * 40 + j * 128 splits at 128 into j and i * 40, which splits at 40 into i. */
  lemma OctetSplit(i: nat, j: nat)
    requires i < 3
    ensures (i * 0x28 + j * 0x80) / 0x80 == j && (i * 0x28 + j * 0x80) % 0x80 == i * 0x28
    ensures i * 0x28 / 0x28 == i
  {
  }

  /** low + k * 1024 splits at 1024 into k and low. */
  lemma LineSplit(low: nat, k: nat)
    requires low < 0x400
    ensures (low + k * 0x400) / 0x400 == k && (low + k * 0x400) % 0x400 == low
  {
  }

  /** Every row base leads back to its row. */
  lemma RowBaseDecode(z: nat, i: nat, j: nat, k: nat)
    requires i < 3 && j < 8 && k < 8
    ensures RowOfBase(RowBase(z, i, j, k)) == z * FIELD_ROWS + i * 64 + j * 8 + k
  {
    var m := i * 0x28 + j * 0x80 + k * 0x400;
    OffsetDecode(i, j, k);
    assert RowBase(z, i, j, k) / FIELD_SIZE == z && RowBase(z, i, j, k) % FIELD_SIZE == m;
  }

  /** The bytes of row r lie in field r / 192, and from its address the row is read back. */
  lemma RowAddressInField(r: nat)
    ensures r / FIELD_ROWS * FIELD_SIZE <= RowAddress(r)
    ensures RowAddress(r) + ROW_BYTES <= (r / FIELD_ROWS + 1) * FIELD_SIZE
    ensures RowOfBase(RowAddress(r)) == r
  {
    RowDecode(r);
    RowBaseBounds(r / 192, r % 192 / 64, r % 64 / 8, r % 8);
    RowBaseDecode(r / 192, r % 192 / 64, r % 64 / 8, r % 8);
  }

  /** Different image rows start at different bytes. */
  lemma RowAddressDistinct(r: nat, r': nat)
    requires r != r'
    ensures RowAddress(r) != RowAddress(r')
  {
    RowAddressInField(r);
    RowAddressInField(r');
  }

  /** A row number is recovered from its field, i, j and k. */
  lemma RowDecode(r: nat)
    ensures r % 192 / 64 < 3 && r % 64 / 8 < 8 && r % 8 < 8
    ensures r == r / 192 * 192 + r % 192 / 64 * 64 + r % 64 / 8 * 8 + r % 8
  {
    var m := r % 192;
    assert r == r / 192 * 192 + m;
    assert m == m / 64 * 64 + m % 64;
    assert r % 64 == m % 64 by {
      assert r == (3 * (r / 192)) * 64 + m;
    }
    var n := r % 64;
    assert n == n / 8 * 8 + n % 8;
    assert r % 8 == n % 8 by {
      assert r == (8 * (r / 64)) * 8 + n;
    }
  }

  // ----------------------------------------------------------------------------------------------
  // filling a line from a screen row

  function Pow2(n: nat): (r: nat)
    ensures r >= 1
  {
    if n == 0 then 1 else 2 * Pow2(n - 1)
  }

  /** `(value >> px) & 0x01` for a non-negative value. */
  function Bit(value: nat, px: nat): int
  {
    value / Pow2(px) % 2
  }

  /** Pixel px of the byte b at address ptr: black when bit px of its low seven bits is clear,
      otherwise the palette colour that its bit 7 and the column (ptr + px) % 2 choose. */
  function BytePixel(b: byte, ptr: nat, px: nat): int
  {
    if Bit(b % 128, px) == 0 then BLACK else Palette(b / 128, (ptr + px) % 2)
  }

  /** How many bytes of the row at base the buffer holds: `min(base + 40, length) - base`, or none
      when the row starts past the end. */
  function RowLength(length: nat, base: nat): (n: nat)
    ensures n <= ROW_BYTES && (n > 0 ==> base + n <= length)
  {
    if base + ROW_BYTES <= length then ROW_BYTES else if base < length then length - base else 0
  }

  /** The bytes of the row at base that the buffer holds. */
  function RowSlice(buffer: seq<byte>, base: nat): (r: seq<byte>)
    ensures |r| == RowLength(|buffer|, base)
    ensures forall k :: 0 <= k < |r| ==> r[k] == buffer[base + k]
  {
    var n := RowLength(|buffer|, base);
    if n == 0 then [] else buffer[base..base + n]
  }

  /** The line after the fill: seven pixels per byte of the row, and past them whatever the line
      held before (the row that was drawn last). */
  function Filled(prev: seq<int>, buffer: seq<byte>, base: nat): (r: seq<int>)
    requires |prev| == LINE_WIDTH
    ensures |r| == LINE_WIDTH
  {
    FilledTo(prev, buffer, base, 7 * RowLength(|buffer|, base))
  }

  /** The line once the fill has written its first n pixels. */
  function FilledTo(prev: seq<int>, buffer: seq<byte>, base: nat, n: nat): (r: seq<int>)
    requires |prev| == LINE_WIDTH && n <= 7 * RowLength(|buffer|, base)
    ensures |r| == LINE_WIDTH
  {
    seq(LINE_WIDTH, x requires 0 <= x < LINE_WIDTH =>
      if x < n then BytePixel(buffer[base + x / 7], base + x / 7, x % 7) else prev[x])
  }

  /** Writing pixel px of the row byte at ptr, the next pixel of the fill. */
  lemma FilledToNext(prev: seq<int>, buffer: seq<byte>, base: nat, ptr: nat, px: nat)
    requires |prev| == LINE_WIDTH && px < 7
    requires base <= ptr < base + RowLength(|buffer|, base)
    ensures 7 * (ptr - base) + px < LINE_WIDTH
    ensures FilledTo(prev, buffer, base, 7 * (ptr - base) + px)[7 * (ptr - base) + px := BytePixel(buffer[ptr], ptr, px)]
            == FilledTo(prev, buffer, base, 7 * (ptr - base) + px + 1)
  {
    var n := 7 * (ptr - base) + px;
    assert n / 7 == ptr - base && n % 7 == px;
  }

  /** Before the passes, pixel 7*(ptr-base)+px of a row byte is black exactly when bit px of the
      byte is clear, and otherwise the palette colour of the byte's bit 7 and the column; pixels
      past the row's bytes keep their previous values. */
  lemma FilledPixels(prev: seq<int>, buffer: seq<byte>, base: nat, ptr: nat, px: nat)
    requires |prev| == LINE_WIDTH && px < 7
    ensures base <= ptr < base + RowLength(|buffer|, base) ==>
      var p := Filled(prev, buffer, base)[7 * (ptr - base) + px];
      (p == BLACK <==> Bit(buffer[ptr] % 128, px) == 0) &&
      (p != BLACK ==> p == Palette(buffer[ptr] / 128, (ptr + px) % 2)) &&
      p in {BLACK, VIOLET, GREEN, BLUE, RED}
    ensures forall x :: 7 * RowLength(|buffer|, base) <= x < LINE_WIDTH ==> Filled(prev, buffer, base)[x] == prev[x]
  {
    if base <= ptr < base + RowLength(|buffer|, base) {
      var x := 7 * (ptr - base) + px;
      assert x / 7 == ptr - base && x % 7 == px;
      PaletteColours(buffer[ptr] / 128, (ptr + px) % 2);
    }
  }

  // ----------------------------------------------------------------------------------------------
  // the white merge

  /** One step of the merge: two adjacent non-black pixels at x and x+1 both become white. */
  function MergeStep(s: seq<int>, x: nat): (r: seq<int>)
    requires x + 1 < |s|
    ensures |r| == |s|
  {
    if s[x] != BLACK && s[x + 1] != BLACK then s[x := WHITE][x + 1 := WHITE] else s
  }

  /** The merge loop from x on: steps x, x+1, ..., 278 in order. */
  function MergeFrom(s: seq<int>, x: nat): (r: seq<int>)
    requires |s| == LINE_WIDTH
    ensures |r| == LINE_WIDTH
    decreases LINE_WIDTH - x
  {
    if x >= LINE_WIDTH - 1 then s else MergeFrom(MergeStep(s, x), x + 1)
  }

  function Merged(l: seq<int>): (r: seq<int>)
    requires |l| == LINE_WIDTH
    ensures |r| == LINE_WIDTH
  {
    MergeFrom(l, 0)
  }

  /** What the merge makes of pixel x, stated without the loop: black stays black, a non-black
      pixel with a non-black neighbour becomes white, any other pixel is unchanged. */
  function MergedPixel(l: seq<int>, x: nat): int
    requires x < |l|
  {
    if l[x] == BLACK then BLACK
    else if (x > 0 && l[x - 1] != BLACK) || (x + 1 < |l| && l[x + 1] != BLACK) then WHITE
    else l[x]
  }

  /** The state of the merge loop before step x: pixels before x are final, pixel x is white if
      it was merged with its left neighbour, and pixels after x are untouched. */
  predicate MergeInvariant(l: seq<int>, s: seq<int>, x: nat)
  {
    |l| == LINE_WIDTH && |s| == LINE_WIDTH && x < LINE_WIDTH &&
    (forall y :: 0 <= y < x ==> s[y] == MergedPixel(l, y)) &&
    s[x] == (if x > 0 && l[x - 1] != BLACK && l[x] != BLACK then WHITE else l[x]) &&
    (forall y :: x < y < LINE_WIDTH ==> s[y] == l[y])
  }

  lemma MergeStepInvariant(l: seq<int>, s: seq<int>, x: nat)
    requires MergeInvariant(l, s, x) && x + 1 < LINE_WIDTH
    ensures MergeInvariant(l, MergeStep(s, x), x + 1)
  {
    var r := MergeStep(s, x);
    assert r[x] == MergedPixel(l, x);
    forall y | 0 <= y < x + 1
      ensures r[y] == MergedPixel(l, y)
    {
      if y < x {
        assert r[y] == s[y];
      }
    }
  }

  lemma {:induction false} MergeFromDeclarative(l: seq<int>, s: seq<int>, x: nat)
    requires MergeInvariant(l, s, x)
    ensures forall y :: 0 <= y < LINE_WIDTH ==> MergeFrom(s, x)[y] == MergedPixel(l, y)
    decreases LINE_WIDTH - x
  {
    if x + 1 < LINE_WIDTH {
      MergeStepInvariant(l, s, x);
      MergeFromDeclarative(l, MergeStep(s, x), x + 1);
    } else {
      forall y | 0 <= y < LINE_WIDTH
        ensures s[y] == MergedPixel(l, y)
      {
      }
    }
  }

  /** The merge loop computes the declarative merge. */
  lemma MergedDeclarative(l: seq<int>)
    requires |l| == LINE_WIDTH
    ensures forall x :: 0 <= x < LINE_WIDTH ==> Merged(l)[x] == MergedPixel(l, x)
  {
    MergeFromDeclarative(l, l, 0);
  }

  /** After the merge any two adjacent non-black pixels are both white, and the merge neither
      makes a pixel black nor makes a black pixel anything else. */
  lemma MergedProperties(l: seq<int>)
    requires |l| == LINE_WIDTH
    ensures forall x :: 0 <= x < LINE_WIDTH - 1 && Merged(l)[x] != BLACK && Merged(l)[x + 1] != BLACK ==>
              Merged(l)[x] == WHITE && Merged(l)[x + 1] == WHITE
    ensures forall x :: 0 <= x < LINE_WIDTH ==> (Merged(l)[x] == BLACK <==> l[x] == BLACK)
  {
    MergedDeclarative(l);
  }

  // ----------------------------------------------------------------------------------------------
  // the colour quirks

  /** One window of the quirks pass over pixels x..x+3: a black pixel between two equal colours
      (V-B-V-B) or before two whites (V-B-W-W) takes the colour on its left; a black pixel after
      two equal colours' gap (B-G-B-G) or after two whites (W-W-B-G) takes the colour on its right. */
  function QuirkStep(s: seq<int>, x: nat): (r: seq<int>)
    requires x + 3 < |s|
    ensures |r| == |s|
  {
    var px0, px1, px2, px3 := s[x], s[x + 1], s[x + 2], s[x + 3];
    if px1 == BLACK then
      if px3 == BLACK && px0 == px2 && IsColoured(px0) then s[x + 1 := px0]
      else if px3 == WHITE && px2 == WHITE && IsColoured(px0) then s[x + 1 := px0]
      else s
    else if px2 == BLACK then
      if px0 == BLACK && px1 == px3 && IsColoured(px3) then s[x + 2 := px3]
      else if px0 == WHITE && px1 == WHITE && IsColoured(px3) then s[x + 2 := px3]
      else s
    else s
  }

  /** The quirks loop from x on: windows x, x+1, ..., 276 in order. */
  function QuirksFrom(s: seq<int>, x: nat): (r: seq<int>)
    requires |s| == LINE_WIDTH
    ensures |r| == LINE_WIDTH
    decreases LINE_WIDTH - x
  {
    if x >= LINE_WIDTH - 3 then s else QuirksFrom(QuirkStep(s, x), x + 1)
  }

  function Quirked(l: seq<int>): (r: seq<int>)
    requires |l| == LINE_WIDTH
    ensures |r| == LINE_WIDTH
  {
    QuirksFrom(l, 0)
  }

  /** A window rewrites at most one pixel, x+1 or x+2, only when it is black, and only to the
      coloured pixel at the window's end next to it (x or x+3). */
  lemma QuirkStepChanges(s: seq<int>, x: nat)
    requires x + 3 < |s|
    ensures forall y :: 0 <= y < |s| && QuirkStep(s, x)[y] != s[y] ==>
              s[y] == BLACK && IsColoured(QuirkStep(s, x)[y]) &&
              ((y == x + 1 && QuirkStep(s, x)[y] == s[x]) || (y == x + 2 && QuirkStep(s, x)[y] == s[x + 3]))
  {
  }

  /** Compared with the line it started from, the quirks pass has only turned black pixels into
      coloured ones. */
  predicate OnlyBlackRecoloured(l: seq<int>, s: seq<int>)
  {
    |s| == |l| &&
    forall y :: 0 <= y < |l| && s[y] != l[y] ==> l[y] == BLACK && IsColoured(s[y])
  }

  lemma {:induction false} QuirksFromRecolours(l: seq<int>, s: seq<int>, x: nat)
    requires |l| == LINE_WIDTH && OnlyBlackRecoloured(l, s)
    ensures OnlyBlackRecoloured(l, QuirksFrom(s, x))
    decreases LINE_WIDTH - x
  {
    if x < LINE_WIDTH - 3 {
      var r := QuirkStep(s, x);
      QuirkStepChanges(s, x);
      forall y | 0 <= y < |l| && r[y] != l[y]
        ensures l[y] == BLACK && IsColoured(r[y])
      {
        if r[y] != s[y] {
          assert s[y] == BLACK;
        }
      }
      QuirksFromRecolours(l, r, x + 1);
    }
  }

  /** The quirks pass only ever rewrites black pixels, always to a colour; non-black pixels keep
      their value. */
  lemma QuirkedRecolours(l: seq<int>)
    requires |l| == LINE_WIDTH
    ensures forall x :: 0 <= x < LINE_WIDTH && l[x] != BLACK ==> Quirked(l)[x] == l[x]
    ensures forall x :: 0 <= x < LINE_WIDTH && Quirked(l)[x] != l[x] ==> l[x] == BLACK && IsColoured(Quirked(l)[x])
  {
    QuirksFromRecolours(l, l, 0);
  }

  /** The four rules on their own windows. */
  lemma QuirkRules()
    ensures QuirkStep([VIOLET, BLACK, VIOLET, BLACK], 0) == [VIOLET, VIOLET, VIOLET, BLACK]
    ensures QuirkStep([VIOLET, BLACK, WHITE, WHITE], 0) == [VIOLET, VIOLET, WHITE, WHITE]
    ensures QuirkStep([BLACK, GREEN, BLACK, GREEN], 0) == [BLACK, GREEN, GREEN, GREEN]
    ensures QuirkStep([WHITE, WHITE, BLACK, GREEN], 0) == [WHITE, WHITE, GREEN, GREEN]
    ensures QuirkStep([WHITE, BLACK, WHITE, BLACK], 0) == [WHITE, BLACK, WHITE, BLACK]
  {
  }

  // ----------------------------------------------------------------------------------------------
  // whole images

  /** The line `drawLine` leaves behind for the row at base: fill, merge, then the quirks when
      they are switched on. */
  function DrawnLine(prev: seq<int>, buffer: seq<byte>, base: nat, quirks: bool): (r: seq<int>)
    requires |prev| == LINE_WIDTH
    ensures |r| == LINE_WIDTH
  {
    var m := Merged(Filled(prev, buffer, base));
    if quirks then Quirked(m) else m
  }

  /** The screen addresses of the first n rows, in row order. */
  function RowAddresses(n: nat): (r: seq<nat>)
    ensures |r| == n
  {
    seq(n, q requires 0 <= q => RowAddress(q))
  }

  /** Each entry is the screen address of the row with its index. */
  predicate AtRowAddresses(addrs: seq<nat>)
  {
    forall q :: 0 <= q < |addrs| ==> addrs[q] == RowAddress(q)
  }

  /** The address of the next row extends the addresses of the rows before it. */
  lemma AtRowAddressesSnoc(addrs: seq<nat>, base: nat)
    requires AtRowAddresses(addrs) && base == RowAddress(|addrs|)
    ensures AtRowAddresses(addrs + [base])
  {
  }

  /** Addresses at their rows are the first row addresses, and only they are. */
  lemma AtRowAddressesAll(addrs: seq<nat>)
    ensures AtRowAddresses(addrs) <==> addrs == RowAddresses(|addrs|)
  {
  }

  /** The pixels drawn and the line left after drawing the rows at the addresses in turn, each
      from the line the one before left. */
  function ColourAlong(prev: seq<int>, buffer: seq<byte>, addrs: seq<nat>, quirks: bool)
    : (res: (seq<int>, seq<int>))
    requires |prev| == LINE_WIDTH
    ensures |res.0| == LINE_WIDTH * |addrs| && |res.1| == LINE_WIDTH
  {
    if addrs == [] then ([], prev)
    else
      var (p, l) := ColourAlong(prev, buffer, addrs[..|addrs| - 1], quirks);
      var next := DrawnLine(l, buffer, addrs[|addrs| - 1], quirks);
      (p + next, next)
  }

  /** Drawing one more row appends it to the pixels and leaves it as the line. */
  lemma ColourAlongSnoc(prev: seq<int>, buffer: seq<byte>, addrs: seq<nat>, base: nat, quirks: bool)
    requires |prev| == LINE_WIDTH
    ensures var (p, l) := ColourAlong(prev, buffer, addrs, quirks);
            var next := DrawnLine(l, buffer, base, quirks);
            ColourAlong(prev, buffer, addrs + [base], quirks) == (p + next, next)
  {
    assert (addrs + [base])[..|addrs|] == addrs;
  }

  /** `drawColour`'s image and the line it leaves in the shared buffer: the rows drawn in row
      order at their screen addresses. */
  function ColourImage(prev: seq<int>, buffer: seq<byte>, rows: nat, quirks: bool): (res: (seq<int>, seq<int>))
    requires |prev| == LINE_WIDTH
    ensures |res.0| == LINE_WIDTH * rows && |res.1| == LINE_WIDTH
  {
    ColourAlong(prev, buffer, RowAddresses(rows), quirks)
  }

  /** Row q of an image laid out 280 pixels per row. */
  function ImageRow(img: seq<int>, q: nat): (r: seq<int>)
    requires LINE_WIDTH * (q + 1) <= |img|
    ensures |r| == LINE_WIDTH
  {
    img[LINE_WIDTH * q .. LINE_WIDTH * (q + 1)]
  }

  /** What the shared line holds when row q is drawn: prev for the first row, else row q - 1. */
  function LineBeforeRow(prev: seq<int>, img: seq<int>, q: nat): (r: seq<int>)
    requires |prev| == LINE_WIDTH && LINE_WIDTH * q <= |img|
    ensures |r| == LINE_WIDTH
  {
    if q == 0 then prev else ImageRow(img, q - 1)
  }

  /** img holds n rows, each the line `drawLine` builds for its row out of the line before it. */
  ghost predicate RowsDrawn(prev: seq<int>, buffer: seq<byte>, quirks: bool, img: seq<int>, n: nat)
  {
    |prev| == LINE_WIDTH && |img| == LINE_WIDTH * n &&
    forall q :: 0 <= q < n ==>
      ImageRow(img, q) == DrawnLine(LineBeforeRow(prev, img, q), buffer, RowAddress(q), quirks)
  }

  /** Appending a row to an image keeps the rows already there and the lines before them. */
  lemma ImageRowAppend(prev: seq<int>, img: seq<int>, l: seq<int>, n: nat, q: nat)
    requires |prev| == LINE_WIDTH && |img| == LINE_WIDTH * n && |l| == LINE_WIDTH && q <= n
    ensures q < n ==> ImageRow(img + l, q) == ImageRow(img, q)
    ensures q == n ==> ImageRow(img + l, q) == l
    ensures LineBeforeRow(prev, img + l, q) == LineBeforeRow(prev, img, q)
  {
    if q < n {
      assert ImageRow(img + l, q) == ImageRow(img, q);
    } else {
      assert ImageRow(img + l, q) == l;
    }
    if 0 < q {
      assert ImageRow(img + l, q - 1) == ImageRow(img, q - 1);
    }
  }

  /** Appending the line drawn for row n to an image of n rows gives an image of n + 1 rows. */
  lemma RowsDrawnStep(prev: seq<int>, buffer: seq<byte>, quirks: bool, img: seq<int>, n: nat, l: seq<int>)
    requires RowsDrawn(prev, buffer, quirks, img, n)
    requires l == DrawnLine(LineBeforeRow(prev, img, n), buffer, RowAddress(n), quirks)
    ensures RowsDrawn(prev, buffer, quirks, img + l, n + 1)
  {
    forall q | 0 <= q < n + 1
      ensures ImageRow(img + l, q) == DrawnLine(LineBeforeRow(prev, img + l, q), buffer, RowAddress(q), quirks)
    {
      ImageRowAppend(prev, img, l, n, q);
    }
  }

  /** Drawing rows at their screen addresses gives an image whose rows are the lines drawn out
      of the rows before them, and leaves the last row in the line. */
  lemma {:induction false} ColourAlongDrawn(prev: seq<int>, buffer: seq<byte>, addrs: seq<nat>, quirks: bool)
    requires |prev| == LINE_WIDTH && AtRowAddresses(addrs)
    ensures RowsDrawn(prev, buffer, quirks, ColourAlong(prev, buffer, addrs, quirks).0, |addrs|)
    ensures ColourAlong(prev, buffer, addrs, quirks).1
            == LineBeforeRow(prev, ColourAlong(prev, buffer, addrs, quirks).0, |addrs|)
  {
    if addrs == [] {
      assert RowsDrawn(prev, buffer, quirks, [], 0);
    } else {
      var n := |addrs| - 1;
      assert AtRowAddresses(addrs[..n]) by {
        forall q | 0 <= q < n
          ensures addrs[..n][q] == RowAddress(q)
        {
          assert addrs[..n][q] == addrs[q];
        }
      }
      ColourAlongDrawn(prev, buffer, addrs[..n], quirks);
      var (p, l) := ColourAlong(prev, buffer, addrs[..n], quirks);
      var next := DrawnLine(l, buffer, addrs[n], quirks);
      RowsDrawnStep(prev, buffer, quirks, p, n, next);
      ImageRowAppend(prev, p, next, n, n);
    }
  }

  /** The image has 280 pixels per row, and row q is the line drawn for the row at RowAddress(q)
      out of the row before it (out of the line the previous image left, for the first row); the
      shared line is left holding the last row. */
  lemma ColourImageRows(prev: seq<int>, buffer: seq<byte>, rows: nat, quirks: bool)
    requires |prev| == LINE_WIDTH
    ensures RowsDrawn(prev, buffer, quirks, ColourImage(prev, buffer, rows, quirks).0, rows)
    ensures ColourImage(prev, buffer, rows, quirks).1 == LineBeforeRow(prev, ColourImage(prev, buffer, rows, quirks).0, rows)
  {
    AtRowAddressesAll(RowAddresses(rows));
    ColourAlongDrawn(prev, buffer, RowAddresses(rows), quirks);
  }

  /** Pixel px of the row byte at ptr in a drawn line: a set bit is never black; with the quirks
      off, a clear bit is always black. */
  lemma DrawnLinePixel(before: seq<int>, buffer: seq<byte>, base: nat, quirks: bool, ptr: nat, px: nat)
    requires |before| == LINE_WIDTH && px < 7 && base <= ptr < base + RowLength(|buffer|, base)
    ensures 7 * (ptr - base) + px < LINE_WIDTH
    ensures var p := DrawnLine(before, buffer, base, quirks)[7 * (ptr - base) + px];
            (Bit(buffer[ptr] % 128, px) == 1 ==> p != BLACK) &&
            (!quirks ==> (p == BLACK <==> Bit(buffer[ptr] % 128, px) == 0))
  {
    var filled := Filled(before, buffer, base);
    FilledPixels(before, buffer, base, ptr, px);
    MergedProperties(filled);
    if quirks {
      QuirkedRecolours(Merged(filled));
    }
  }

  /** With the quirks off, two horizontally adjacent non-black pixels of a drawn line are both
      white. */
  lemma DrawnLineMerged(before: seq<int>, buffer: seq<byte>, base: nat, x: nat)
    requires |before| == LINE_WIDTH && x + 1 < LINE_WIDTH
    ensures var l := DrawnLine(before, buffer, base, false);
            l[x] != BLACK && l[x + 1] != BLACK ==> l[x] == WHITE && l[x + 1] == WHITE
  {
    MergedProperties(Filled(before, buffer, base));
  }

  /** Row q of the colour image is the line drawn for the row at RowAddress(q) out of the row
      before it. */
  lemma ColourImageRow(prev: seq<int>, buffer: seq<byte>, rows: nat, quirks: bool, q: nat)
    requires |prev| == LINE_WIDTH && q < rows
    ensures |ColourImage(prev, buffer, rows, quirks).0| == LINE_WIDTH * rows
    ensures var img := ColourImage(prev, buffer, rows, quirks).0;
            ImageRow(img, q) == DrawnLine(LineBeforeRow(prev, img, q), buffer, RowAddress(q), quirks)
  {
    ColourImageRows(prev, buffer, rows, quirks);
  }

  /** Pixel px of the row byte at ptr in row q (at address base) of the colour image is never
      black when its bit is set. */
  lemma ColourImagePixel(prev: seq<int>, buffer: seq<byte>, rows: nat, quirks: bool, q: nat, base: nat, ptr: nat,
                         px: nat)
    requires |prev| == LINE_WIDTH && q < rows && base == RowAddress(q) && px < 7
    requires base <= ptr < base + RowLength(|buffer|, base)
    ensures |ColourImage(prev, buffer, rows, quirks).0| == LINE_WIDTH * rows
    ensures 7 * (ptr - base) + px < LINE_WIDTH
    ensures Bit(buffer[ptr] % 128, px) == 1 ==>
              ImageRow(ColourImage(prev, buffer, rows, quirks).0, q)[7 * (ptr - base) + px] != BLACK
  {
    var img := ColourImage(prev, buffer, rows, quirks).0;
    ColourImageRow(prev, buffer, rows, quirks, q);
    DrawnLinePixel(LineBeforeRow(prev, img, q), buffer, base, quirks, ptr, px);
  }

  /** With the quirks off, pixel px of the row byte at ptr in row q (at address base) of the
      colour image is black exactly when its bit is clear. */
  lemma ColourImageBlackPixel(prev: seq<int>, buffer: seq<byte>, rows: nat, q: nat, base: nat, ptr: nat, px: nat)
    requires |prev| == LINE_WIDTH && q < rows && base == RowAddress(q) && px < 7
    requires base <= ptr < base + RowLength(|buffer|, base)
    ensures |ColourImage(prev, buffer, rows, false).0| == LINE_WIDTH * rows
    ensures 7 * (ptr - base) + px < LINE_WIDTH
    ensures ImageRow(ColourImage(prev, buffer, rows, false).0, q)[7 * (ptr - base) + px] == BLACK
            <==> Bit(buffer[ptr] % 128, px) == 0
  {
    var img := ColourImage(prev, buffer, rows, false).0;
    ColourImageRow(prev, buffer, rows, false, q);
    DrawnLinePixel(LineBeforeRow(prev, img, q), buffer, base, false, ptr, px);
  }

  /** With the quirks off, two horizontally adjacent non-black pixels of a row of the colour image
      are both white. */
  lemma ColourImageMerged(prev: seq<int>, buffer: seq<byte>, rows: nat, q: nat, x: nat)
    requires |prev| == LINE_WIDTH && q < rows && x + 1 < LINE_WIDTH
    ensures |ColourImage(prev, buffer, rows, false).0| == LINE_WIDTH * rows
    ensures var row := ImageRow(ColourImage(prev, buffer, rows, false).0, q);
            row[x] != BLACK && row[x + 1] != BLACK ==> row[x] == WHITE && row[x + 1] == WHITE
  {
    var img := ColourImage(prev, buffer, rows, false).0;
    ColourImageRow(prev, buffer, rows, false, q);
    DrawnLineMerged(LineBeforeRow(prev, img, q), buffer, RowAddress(q), x);
  }

  // ----------------------------------------------------------------------------------------------
  // monochrome

  /** A gray pixel of the monochrome image: 255 when bit px of the byte is set, 0 otherwise. */
  function MonoPixel(b: byte, px: nat): int
  {
    if Bit(b % 128, px) == 0 then 0 else 255
  }

  /** The seven gray pixels of one byte, bit 0 first. */
  function MonoByte(b: byte): (r: seq<int>)
    ensures |r| == 7
  {
    seq(7, px requires 0 <= px < 7 => MonoPixel(b, px))
  }

  /** The gray pixels of some bytes, seven per byte. */
  function MonoBytes(bs: seq<byte>): (r: seq<int>)
    ensures |r| == 7 * |bs|
  {
    if bs == [] then [] else MonoBytes(bs[..|bs| - 1]) + MonoByte(bs[|bs| - 1])
  }

  /** The pixels of one more byte of a row follow those of the bytes before it. */
  lemma MonoBytesSnoc(bs: seq<byte>, n: nat)
    requires n < |bs|
    ensures MonoBytes(bs[..n + 1]) == MonoBytes(bs[..n]) + MonoByte(bs[n])
  {
    assert bs[..n + 1][..n] == bs[..n];
  }

  /** The gray pixels of the rows at the addresses, back to back: seven per byte each row holds,
      with no padding for a short row. */
  function MonoAlong(buffer: seq<byte>, addrs: seq<nat>): (r: seq<int>)
    ensures |r| <= LINE_WIDTH * |addrs|
  {
    if addrs == [] then []
    else MonoAlong(buffer, addrs[..|addrs| - 1]) + MonoBytes(RowSlice(buffer, addrs[|addrs| - 1]))
  }

  /** One more row appends its pixels. */
  lemma MonoAlongSnoc(buffer: seq<byte>, addrs: seq<nat>, base: nat)
    ensures MonoAlong(buffer, addrs + [base]) == MonoAlong(buffer, addrs) + MonoBytes(RowSlice(buffer, base))
  {
    assert (addrs + [base])[..|addrs|] == addrs;
  }

  /** A byte with no bits set draws seven black pixels: the loop's shortcut for a zero byte. */
  lemma MonoZeroByte()
    ensures MonoByte(0) == [0, 0, 0, 0, 0, 0, 0]
  {
    assert forall px :: 0 <= px < 7 ==> MonoPixel(0, px) == 0;
  }

  /** `drawMonochrome`'s image: the gray pixels of every row's bytes back to back, in row order,
      and zeros up to 280 pixels per row. */
  function MonochromeImage(buffer: seq<byte>): (r: seq<int>)
    ensures |r| == LINE_WIDTH * Rows(|buffer|)
  {
    var rows := Rows(|buffer|);
    var p := MonoAlong(buffer, RowAddresses(rows));
    p + seq(LINE_WIDTH * rows - |p|, _ => 0)
  }

  /** Pixels holding the gray pixels of every row, in row order, followed by zeros, are the
      monochrome image. */
  lemma MonochromeImageFrom(s: seq<int>, buffer: seq<byte>, addrs: seq<nat>)
    requires |addrs| == Rows(|buffer|) && AtRowAddresses(addrs) && |s| == LINE_WIDTH * |addrs|
    requires s[..|MonoAlong(buffer, addrs)|] == MonoAlong(buffer, addrs)
    requires forall e :: |MonoAlong(buffer, addrs)| <= e < |s| ==> s[e] == 0
    ensures s == MonochromeImage(buffer)
  {
    AtRowAddressesAll(addrs);
    var p := MonoAlong(buffer, addrs);
    assert s == p + s[|p|..];
  }
}
