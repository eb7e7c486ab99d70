/**
 * The linear framebuffer (kernel/src/out/framebuffer.rs): pixel formats,
 * the colour-to-pixel conversion, and the drawing operations, which store
 * 4-byte pixels into a buffer of `stride * height` bytes, row after row.
 *
 * Pixel (`px`, `py`) occupies the four bytes from `px * 4 + py * stride`.
 * Every drawing operation stores one pixel per cell of a rectangle; the
 * result is described by `Painted`, which gives each cell its pixel and
 * leaves every other byte alone.
 */
module FrameBuffer {
  import opened Wrappers
  import opened Arith

  type byte = x: int | 0 <= x < 0x100

  /** One past the largest `usize` of the 64-bit target. */
  const USIZE_LIMIT: int := 0x1_0000_0000_0000_0000

  type usize = x: int | 0 <= x < USIZE_LIMIT

  datatype PixelFormat = RGBA | BGRA | ARGB | ABGR

  datatype Color = Color(red: byte, green: byte, blue: byte, alpha: byte)

  const WHITE: Color := Color(255, 255, 255, 255)
  const BLACK: Color := Color(0, 0, 0, 0)

  /** Channel `k` of a colour: 0 red, 1 green, 2 blue, 3 alpha. */
  function Channel(c: Color, k: nat): byte
    requires k < 4
  {
    if k == 0 then c.red else if k == 1 then c.green else if k == 2 then c.blue else c.alpha
  }

  /**
   * The constants `RGBA`, `BGRA`, `ARGB` and `ABGR`: the channel each byte
   * of a pixel holds, in the order the format's name spells them.
   */
  function ChannelOrder(format: PixelFormat): (order: seq<nat>)
    ensures |order| == 4 && forall k :: 0 <= k < 4 ==> order[k] < 4
  {
    match format
    case RGBA => [0, 1, 2, 3]
    case BGRA => [2, 1, 0, 3]
    case ARGB => [3, 0, 1, 2]
    case ABGR => [3, 2, 1, 0]
  }

  /** `color_to_pixel`: the four bytes of a colour in the buffer's format. */
  function ColorToPixel(c: Color, format: PixelFormat): (p: seq<byte>)
    ensures |p| == 4
  {
    match format
    case RGBA => [c.red, c.green, c.blue, c.alpha]
    case BGRA => [c.blue, c.green, c.red, c.alpha]
    case ARGB => [c.alpha, c.red, c.green, c.blue]
    case ABGR => [c.alpha, c.blue, c.green, c.red]
  }

  /** Byte `k` of a pixel holds the channel the format's order table names. */
  lemma ColorToPixelOrder(c: Color, format: PixelFormat, k: nat)
    requires k < 4
    ensures ColorToPixel(c, format)[k] == Channel(c, ChannelOrder(format)[k])
  {
  }

  /** Reading a pixel back: the colour whose channels the four bytes hold. */
  function PixelToColor(p: seq<byte>, format: PixelFormat): Color
    requires |p| == 4
  {
    match format
    case RGBA => Color(p[0], p[1], p[2], p[3])
    case BGRA => Color(p[2], p[1], p[0], p[3])
    case ARGB => Color(p[1], p[2], p[3], p[0])
    case ABGR => Color(p[3], p[2], p[1], p[0])
  }

  /** Conversion to a pixel loses nothing, and every pixel is some colour. */
  lemma PixelRoundTrip(c: Color, p: seq<byte>, format: PixelFormat)
    requires |p| == 4
    ensures PixelToColor(ColorToPixel(c, format), format) == c
    ensures ColorToPixel(PixelToColor(p, format), format) == p
  {
  }

  /** The byte offset of pixel (`px`, `py`) in a buffer whose rows are `stride` bytes apart. */
  function Offset(stride: nat, px: nat, py: nat): nat {
    4 * px + stride * py
  }

  /** Byte `i` belongs to a pixel in columns `x .. x + w` and rows `y .. y + h`. */
  predicate InRect(i: int, stride: nat, x: int, y: int, w: int, h: int) {
    stride > 0 && y <= i / stride < y + h && x <= (i % stride) / 4 < x + w
  }

  /** The four bytes of one pixel are the bytes whose row is `py` and whose column is `px`. */
  lemma PixelBytes(i: int, stride: nat, px: nat, py: nat)
    requires 4 * px + 4 <= stride
    ensures InRect(i, stride, px, py, 1, 1) <==> Offset(stride, px, py) <= i < Offset(stride, px, py) + 4
    ensures Offset(stride, px, py) <= i < Offset(stride, px, py) + 4 ==>
      i / stride == py && (i % stride) / 4 == px && (i % stride) % 4 == i - Offset(stride, px, py)
  {
    var o := Offset(stride, px, py);
    if o <= i < o + 4 {
      DivUnique(i, stride, py, 4 * px + (i - o));
      DivUnique(4 * px + (i - o), 4, px, i - o);
    }
    var q, r := i / stride, i % stride;
    assert i == stride * q + r;
    assert r == 4 * (r / 4) + r % 4;
  }

  /** A pixel inside the visible width and height lies inside the buffer. */
  lemma PixelInBuffer(stride: nat, height: nat, px: nat, py: nat)
    requires 4 * px + 4 <= stride && py < height
    ensures Offset(stride, px, py) + 4 <= stride * height
  {
    MulSucc(stride, py);
    MulMono(stride, py + 1, height);
  }

  /** A 4-byte pixel store at byte offset `o`. */
  function Store(buf: seq<byte>, o: nat, pixel: seq<byte>): (r: seq<byte>)
    requires |pixel| == 4 && o + 4 <= |buf|
  {
    seq(|buf|, i requires 0 <= i < |buf| => if o <= i < o + 4 then pixel[i - o] else buf[i])
  }

  /** The four bytes from offset `o`. */
  function PixelAt(buf: seq<byte>, o: nat): (p: seq<byte>)
    requires o + 4 <= |buf|
    ensures |p| == 4
  {
    buf[o .. o + 4]
  }

  /** The pixel of each cell (column, row) of a rectangle, counted from its top-left corner. */
  type Cells = (nat, nat) --> seq<byte>

  ghost predicate CellsOk(cells: Cells, w: nat, h: nat) {
    forall col: nat, row: nat :: col < w && row < h ==> cells.requires(col, row) && |cells(col, row)| == 4
  }

  /** The cells stored first in row-major order: all of the first `r` rows and the first `c` of row `r`. */
  predicate Done(i: int, stride: nat, x: nat, y: nat, w: nat, r: nat, c: nat) {
    InRect(i, stride, x, y, w, r) || InRect(i, stride, x, y + r, c, 1)
  }

  /**
   * The buffer part-way through storing the cells of the `w` by `h`
   * rectangle at (`x`, `y`): the cells `Done` holds their pixels, every other
   * byte is as before.
   */
  function Paint(buf: seq<byte>, stride: nat, x: nat, y: nat, w: nat, h: nat, r: nat, c: nat, cells: Cells): (p: seq<byte>)
    requires CellsOk(cells, w, h) && r <= h && c <= w && (r == h ==> c == 0)
    ensures |p| == |buf|
  {
    seq(|buf|, i requires 0 <= i < |buf| =>
      if Done(i, stride, x, y, w, r, c) then cells((i % stride) / 4 - x, i / stride - y)[(i % stride) % 4] else buf[i])
  }

  /** The buffer once every cell of the rectangle holds its pixel. */
  function Painted(buf: seq<byte>, stride: nat, x: nat, y: nat, w: nat, h: nat, cells: Cells): (p: seq<byte>)
    requires CellsOk(cells, w, h)
    ensures |p| == |buf|
  {
    Paint(buf, stride, x, y, w, h, h, 0, cells)
  }

  /** Before the first store nothing has changed. */
  lemma PaintStart(buf: seq<byte>, stride: nat, x: nat, y: nat, w: nat, h: nat, cells: Cells)
    requires CellsOk(cells, w, h)
    ensures Paint(buf, stride, x, y, w, h, 0, 0, cells) == buf
  {
  }

  /** Storing the next cell of a row extends the painted part by that one pixel. */
  lemma PaintNextCol(buf: seq<byte>, stride: nat, x: nat, y: nat, w: nat, h: nat, r: nat, c: nat, cells: Cells)
    requires CellsOk(cells, w, h) && r < h && c < w && 4 * (x + w) <= stride
    requires Offset(stride, x + c, y + r) + 4 <= |buf|
    ensures Paint(buf, stride, x, y, w, h, r, c + 1, cells)
      == Store(Paint(buf, stride, x, y, w, h, r, c, cells), Offset(stride, x + c, y + r), cells(c, r))
  {
    var before := Paint(buf, stride, x, y, w, h, r, c, cells);
    var after := Paint(buf, stride, x, y, w, h, r, c + 1, cells);
    var o := Offset(stride, x + c, y + r);
    forall i | 0 <= i < |buf|
      ensures after[i] == Store(before, o, cells(c, r))[i]
    {
      PixelBytes(i, stride, x + c, y + r);
    }
  }

  /** A finished row is the start of the next one. */
  lemma PaintNextRow(buf: seq<byte>, stride: nat, x: nat, y: nat, w: nat, h: nat, r: nat, cells: Cells)
    requires CellsOk(cells, w, h) && r < h
    ensures Paint(buf, stride, x, y, w, h, r, w, cells) == Paint(buf, stride, x, y, w, h, r + 1, 0, cells)
  {
    var a := Paint(buf, stride, x, y, w, h, r, w, cells);
    var b := Paint(buf, stride, x, y, w, h, r + 1, 0, cells);
    forall i | 0 <= i < |buf|
      ensures a[i] == b[i]
    {
    }
  }

  /** Every cell of the rectangle ends up holding its pixel ... */
  lemma PaintedCell(buf: seq<byte>, stride: nat, x: nat, y: nat, w: nat, h: nat, cells: Cells, c: nat, r: nat, k: nat)
    requires CellsOk(cells, w, h) && 4 * (x + w) <= stride
    requires c < w && r < h && k < 4 && Offset(stride, x + c, y + r) + k < |buf|
    ensures Painted(buf, stride, x, y, w, h, cells)[Offset(stride, x + c, y + r) + k] == cells(c, r)[k]
  {
    PixelBytes(Offset(stride, x + c, y + r) + k, stride, x + c, y + r);
  }

  /** ... and a byte that changes is one of the cells' bytes. */
  lemma PaintedOnlyCells(buf: seq<byte>, stride: nat, x: nat, y: nat, w: nat, h: nat, cells: Cells, i: nat)
    requires CellsOk(cells, w, h) && i < |buf|
    requires Painted(buf, stride, x, y, w, h, cells)[i] != buf[i]
    ensures stride > 0
    ensures x <= (i % stride) / 4 < x + w && y <= i / stride < y + h
    ensures i == Offset(stride, (i % stride) / 4, i / stride) + (i % stride) % 4
  {
    var q, r := i / stride, i % stride;
    assert i == stride * q + r;
    assert r == 4 * (r / 4) + r % 4;
  }

  /** The cells of `fill_rect`: the same pixel everywhere. */
  function FillCells(pixel: seq<byte>): (cells: Cells)
    requires |pixel| == 4
    ensures forall w: nat, h: nat :: CellsOk(cells, w, h)
  {
    (col: nat, row: nat) => pixel
  }

  /** The position in the source bit stream of the bit for cell (`col`, `row`) of a bitmap. */
  function BitIndex(offset: nat, stride: nat, col: nat, row: nat): nat {
    col + offset + row * stride
  }

  /** Every bit of the `w` by `h` bitmap lies inside `srcLen` bytes. */
  predicate BitsInSrc(srcLen: nat, offset: nat, w: nat, h: nat, stride: nat) {
    h == 0 || w == 0 || offset + stride * (h - 1) + w <= 8 * srcLen
  }

  lemma BitsInSrcBound(srcLen: nat, offset: nat, w: nat, h: nat, stride: nat)
    requires BitsInSrc(srcLen, offset, w, h, stride)
    ensures forall col: nat, row: nat :: col < w && row < h ==> BitIndex(offset, stride, col, row) < 8 * srcLen
  {
    forall col: nat, row: nat | col < w && row < h
      ensures BitIndex(offset, stride, col, row) < 8 * srcLen
    {
      assert row * stride <= (h - 1) * stride by {
        if stride > 0 { MulMono(stride, row, h - 1); }
      }
    }
  }

  /** `1 << j` for `j < 8`. */
  function Bit(j: nat): nat
    requires j < 8
  {
    [1, 2, 4, 8, 16, 32, 64, 128][j]
  }

  /** `b & 1 << (7 - k) != 0`: bit `k` of a byte, counting from the most significant. */
  predicate MsbBit(b: byte, k: nat)
    requires k < 8
  {
    (b / Bit(7 - k)) % 2 == 1
  }

  /**
   * The bit `write_bitmap` tests for cell (`col`, `row`): in the byte that
   * holds stream bit `BitIndex`, the bit at position `(col + offset) % 8`.
   */
  predicate BitmapBit(src: seq<byte>, offset: nat, stride: nat, col: nat, row: nat)
    requires BitIndex(offset, stride, col, row) < 8 * |src|
  {
    MsbBit(src[BitIndex(offset, stride, col, row) / 8], (col + offset) % 8)
  }

  /** With whole-byte rows, the bit tested is exactly stream bit `BitIndex`, read most significant first. */
  lemma BitmapBitIsStreamBit(src: seq<byte>, offset: nat, stride: nat, col: nat, row: nat)
    requires BitIndex(offset, stride, col, row) < 8 * |src| && stride % 8 == 0
    ensures var b := BitIndex(offset, stride, col, row);
      BitmapBit(src, offset, stride, col, row) <==> MsbBit(src[b / 8], b % 8)
  {
    var m := stride / 8;
    assert row * stride == 8 * (row * m);
    DivUnique(col + offset + row * stride, 8, (col + offset) / 8 + row * m, (col + offset) % 8);
  }

  /** The cells of `write_bitmap`: the one-pixel where the tested bit is set, else the zero-pixel. */
  function BitmapCells(src: seq<byte>, offset: nat, w: nat, h: nat, stride: nat, zero: seq<byte>, one: seq<byte>): (cells: Cells)
    requires |zero| == 4 && |one| == 4 && BitsInSrc(|src|, offset, w, h, stride)
    ensures CellsOk(cells, w, h)
    ensures forall col: nat, row: nat :: col < w && row < h ==>
      BitIndex(offset, stride, col, row) < 8 * |src| &&
      cells(col, row) == if BitmapBit(src, offset, stride, col, row) then one else zero
  {
    BitsInSrcBound(|src|, offset, w, h, stride);
    (col: nat, row: nat) requires BitIndex(offset, stride, col, row) < 8 * |src| =>
      if BitmapBit(src, offset, stride, col, row) then one else zero
  }

  /** The cells of `blt`: the 4 bytes at `col * 4 + row * stride` of a separate source. */
  function SourceCells(src: seq<byte>, w: nat, h: nat, stride: nat): (cells: Cells)
    requires w == 0 || h == 0 || 4 * w + stride * (h - 1) <= |src|
    ensures CellsOk(cells, w, h)
    ensures forall col: nat, row: nat :: col < w && row < h ==>
      SourceRowOffset(stride, col, row) + 4 <= |src| && cells(col, row) == PixelAt(src, SourceRowOffset(stride, col, row))
  {
    SourceBound(src, w, h, stride);
    (col: nat, row: nat) requires SourceRowOffset(stride, col, row) + 4 <= |src| =>
      PixelAt(src, SourceRowOffset(stride, col, row))
  }

  /** `col * 4 + row * stride`: where cell (`col`, `row`) of `blt`'s source starts. */
  function SourceRowOffset(stride: nat, col: nat, row: nat): nat {
    4 * col + stride * row
  }

  lemma SourceBound(src: seq<byte>, w: nat, h: nat, stride: nat)
    requires w == 0 || h == 0 || 4 * w + stride * (h - 1) <= |src|
    ensures forall col: nat, row: nat :: col < w && row < h ==> SourceRowOffset(stride, col, row) + 4 <= |src|
  {
    forall col: nat, row: nat | col < w && row < h
      ensures SourceRowOffset(stride, col, row) + 4 <= |src|
    {
      assert stride * row <= stride * (h - 1) by {
        if stride > 0 { MulMono(stride, row, h - 1); }
      }
    }
  }

  /** The byte offset of pixel (`sx + col`, `sy + row`): where cell (`col`, `row`) of a moved rectangle comes from. */
  function SourceOffset(stride: nat, sx: nat, sy: nat, col: nat, row: nat): nat {
    Offset(stride, sx + col, sy + row)
  }

  /** The cells of `internal_blt` read from the buffer before the copy: pixel (`sx + col`, `sy + row`). */
  function MovedCells(buf: seq<byte>, stride: nat, height: nat, width: nat, sx: nat, sy: nat, w: nat, h: nat): (cells: Cells)
    requires |buf| == stride * height && 4 * width <= stride && sx + w <= width && sy + h <= height
    ensures CellsOk(cells, w, h)
    ensures forall col: nat, row: nat :: col < w && row < h ==>
      SourceOffset(stride, sx, sy, col, row) + 4 <= |buf| && cells(col, row) == PixelAt(buf, SourceOffset(stride, sx, sy, col, row))
  {
    MovedBound(buf, stride, height, width, sx, sy, w, h);
    (col: nat, row: nat) requires SourceOffset(stride, sx, sy, col, row) + 4 <= |buf| =>
      PixelAt(buf, SourceOffset(stride, sx, sy, col, row))
  }

  lemma MovedBound(buf: seq<byte>, stride: nat, height: nat, width: nat, sx: nat, sy: nat, w: nat, h: nat)
    requires |buf| == stride * height && 4 * width <= stride && sx + w <= width && sy + h <= height
    ensures forall col: nat, row: nat :: col < w && row < h ==> SourceOffset(stride, sx, sy, col, row) + 4 <= |buf|
  {
    forall col: nat, row: nat | col < w && row < h
      ensures SourceOffset(stride, sx, sy, col, row) + 4 <= |buf|
    {
      PixelInBuffer(stride, height, sx + col, sy + row);
    }
  }

  /**
   * A copy `internal_blt` performs correctly in place: the destination lies
   * above the source, or on the same rows and not to its right, or the two
   * rectangles share no pixel (the destination lies wholly below, left or
   * right of the source). Copying row-major from the top-left, such a copy
   * reads every source pixel before any store reaches it.
   */
  predicate CopyExact(sx: nat, sy: nat, dx: nat, dy: nat, w: nat, h: nat) {
    dy < sy || (dy == sy && dx <= sx) || sy + h <= dy || sx + w <= dx || dx + w <= sx
  }

  /** Under `CopyExact`, the source pixel of the next cell is not among the cells already stored. */
  lemma SourceUnread(stride: nat, sx: nat, sy: nat, dx: nat, dy: nat, w: nat, h: nat, row: nat, col: nat, j: int)
    requires CopyExact(sx, sy, dx, dy, w, h) && row < h && col < w && 4 * (sx + col) + 4 <= stride
    requires Offset(stride, sx + col, sy + row) <= j < Offset(stride, sx + col, sy + row) + 4
    ensures !Done(j, stride, dx, dy, w, row, col)
  {
    PixelBytes(j, stride, sx + col, sy + row);
  }

  /** Storing cell (`c`, `r`) changes only bytes that are `Done` once it is stored. */
  lemma StoreFrame(prev: seq<byte>, b0: seq<byte>, stride: nat, x: nat, y: nat, w: nat, r: nat, c: nat, pixel: seq<byte>)
    requires |pixel| == 4 && |b0| == |prev| && 4 * (x + c) + 4 <= stride && Offset(stride, x + c, y + r) + 4 <= |prev|
    requires forall i :: 0 <= i < |prev| && !Done(i, stride, x, y, w, r, c) ==> prev[i] == b0[i]
    ensures forall i :: 0 <= i < |prev| && !Done(i, stride, x, y, w, r, c + 1) ==>
      Store(prev, Offset(stride, x + c, y + r), pixel)[i] == b0[i]
  {
    forall i | 0 <= i < |prev| && !Done(i, stride, x, y, w, r, c + 1)
      ensures Store(prev, Offset(stride, x + c, y + r), pixel)[i] == b0[i]
    {
      PixelBytes(i, stride, x + c, y + r);
    }
  }

  /**
   * The first assertion of `write_bitmap`,
   * `src.len() * 8 >= offset + stride * height - (stride - width)`, in
   * `usize` arithmetic: an overflow or underflow panics (`None`), otherwise
   * the comparison's value.
   */
  function SrcCheck(srcLen: nat, offset: nat, w: nat, h: nat, stride: nat): (r: Option<bool>)
    ensures r == Some(true) ==> w <= stride && BitsInSrc(srcLen, offset, w, h, stride)
  {
    if srcLen * 8 >= USIZE_LIMIT || stride * h >= USIZE_LIMIT || offset + stride * h >= USIZE_LIMIT
      || stride < w || offset + stride * h < stride - w
    then None
    else
      SrcCheckBound(offset, w, h, stride);
      Some(srcLen * 8 >= offset + stride * h - (stride - w))
  }

  lemma SrcCheckBound(offset: nat, w: nat, h: nat, stride: nat)
    ensures h > 0 ==> offset + stride * h - (stride - w) == offset + stride * (h - 1) + w
  {
    if h > 0 { MulSucc(stride, h - 1); }
  }

  /**
   * The second assertion of `write_bitmap` as written, `dst_x + (width / 8) <= self.width`:
   * it divides the bitmap's width, counted in pixels, by eight.
   */
  predicate BitmapFitsAsWritten(dx: nat, w: nat, fbWidth: nat) {
    dx + w / 8 <= fbWidth
  }

  /** The check lets an 8-pixel-wide bitmap start at column 7 of an 8-pixel-wide buffer, so columns 8 to 14 are stored past the row. */
  lemma BitmapFitsAsWrittenOverruns()
    ensures BitmapFitsAsWritten(7, 8, 8) && !InRow(7, 7, 8)
  {
  }

  /** The evident intent: every column the bitmap covers lies inside the buffer's width. */
  predicate BitmapFits(dx: nat, w: nat, fbWidth: nat) {
    dx + w <= fbWidth
  }

  /** The four bytes of column `dx + col` lie inside the visible part of a row. */
  predicate InRow(dx: nat, col: nat, fbWidth: nat) {
    4 * (dx + col) + 4 <= 4 * fbWidth
  }

  /** The corrected check holds exactly when every column of the bitmap is stored inside the visible row. */
  lemma BitmapFitsColumns(dx: nat, w: nat, fbWidth: nat)
    requires w > 0
    ensures BitmapFits(dx, w, fbWidth) <==> forall col: nat :: col < w ==> InRow(dx, col, fbWidth)
  {
    if !BitmapFits(dx, w, fbWidth) {
      assert !InRow(dx, w - 1, fbWidth);
    }
  }

  /** The three assertions of `write_bitmap`, with the width check corrected. */
  predicate BitmapChecks(srcLen: nat, offset: nat, w: nat, h: nat, stride: nat, dx: nat, dy: nat, fbWidth: nat, fbHeight: nat) {
    SrcCheck(srcLen, offset, w, h, stride) == Some(true) && BitmapFits(dx, w, fbWidth) && dy + h <= fbHeight
  }

  class FrameBuffer {
    /** The `stride * height` bytes the buffer pointer covers. */
    const buffer: array<byte>
    /** The visible resolution, in pixels. */
    const width: usize
    const height: usize
    /** The distance between rows, in bytes. */
    const stride: usize
    const format: PixelFormat

    /** The layout the loader reports: a whole buffer, each visible row inside its stride. */
    predicate Valid() {
      buffer.Length == stride * height && 4 * width <= stride
    }

    /** `FrameBuffer::new` over the `stride * height` bytes at the buffer's base; the loader promises each visible row fits its stride. */
    constructor (memory: seq<byte>, width: usize, height: usize, stride: usize, format: PixelFormat)
      requires |memory| == stride * height && 4 * width <= stride
      ensures Valid()
      ensures this.width == width && this.height == height && this.stride == stride && this.format == format
      ensures buffer.Length == stride * height && buffer[..] == memory
      ensures fresh(buffer)
    {
      this.width := width;
      this.height := height;
      this.stride := stride;
      this.format := format;
      buffer := new byte[stride * height](i requires 0 <= i < stride * height => memory[i]);
    }

    /** The `cast::<[u8; 4]>().write(pixel)` of every drawing loop. */
    method WritePixel(o: nat, pixel: seq<byte>)
      requires |pixel| == 4 && o + 4 <= buffer.Length
      modifies buffer
      ensures buffer[..] == Store(old(buffer[..]), o, pixel)
    {
      buffer[o] := pixel[0];
      buffer[o + 1] := pixel[1];
      buffer[o + 2] := pixel[2];
      buffer[o + 3] := pixel[3];
    }

    /**
     * `fill_rect`: panics unless the rectangle lies inside the visible
     * area; otherwise every cell holds the colour's pixel.
     */
    method FillRect(x: usize, y: usize, w: usize, h: usize, color: Color) returns (ok: bool)
      requires Valid()
      modifies buffer
      ensures ok <==> x + w <= width && y + h <= height
      ensures ok ==> buffer[..] == Painted(old(buffer[..]), stride, x, y, w, h, FillCells(ColorToPixel(color, format)))
      ensures !ok ==> buffer[..] == old(buffer[..])
    {
      if x + w > width || y + h > height {
        return false;
      }
      var pixel := ColorToPixel(color, format);
      ghost var cells := FillCells(pixel);
      ghost var b0 := buffer[..];
      PaintStart(b0, stride, x, y, w, h, cells);
      var row := y;
      while row < y + h
        invariant y <= row <= y + h
        invariant buffer[..] == Paint(b0, stride, x, y, w, h, row - y, 0, cells)
      {
        var col := 0;
        while col < w
          invariant 0 <= col <= w
          invariant buffer[..] == Paint(b0, stride, x, y, w, h, row - y, col, cells)
        {
          PixelInBuffer(stride, height, x + col, row);
          PaintNextCol(b0, stride, x, y, w, h, row - y, col, cells);
          WritePixel((x + col) * 4 + stride * row, pixel);
          col := col + 1;
        }
        PaintNextRow(b0, stride, x, y, w, h, row - y, cells);
        row := row + 1;
      }
      ok := true;
    }

    /**
     * `blt`: copies a `w` by `h` rectangle of pixels from a separate
     * source whose rows are `srcStride` bytes apart. The caller promises
     * that the source holds the rectangle and the destination lies inside
     * the visible area.
     */
    method Blt(src: seq<byte>, w: usize, h: usize, srcStride: usize, dx: usize, dy: usize)
      requires Valid() && dx + w <= width && dy + h <= height
      requires w == 0 || h == 0 || 4 * w + srcStride * (h - 1) <= |src|
      modifies buffer
      ensures buffer[..] == Painted(old(buffer[..]), stride, dx, dy, w, h, SourceCells(src, w, h, srcStride))
    {
      ghost var cells := SourceCells(src, w, h, srcStride);
      ghost var b0 := buffer[..];
      PaintStart(b0, stride, dx, dy, w, h, cells);
      var row := 0;
      while row < h
        invariant row <= h
        invariant buffer[..] == Paint(b0, stride, dx, dy, w, h, row, 0, cells)
      {
        var col := 0;
        while col < w
          invariant 0 <= col <= w
          invariant buffer[..] == Paint(b0, stride, dx, dy, w, h, row, col, cells)
        {
          var s := col * 4 + row * srcStride;
          PixelInBuffer(stride, height, dx + col, dy + row);
          PaintNextCol(b0, stride, dx, dy, w, h, row, col, cells);
          WritePixel((dx + col) * 4 + (dy + row) * stride, PixelAt(src, s));
          col := col + 1;
        }
        PaintNextRow(b0, stride, dx, dy, w, h, row, cells);
        row := row + 1;
      }
    }

    /**
     * `internal_blt`: copies a `w` by `h` rectangle of the buffer to another
     * place in it, pixel by pixel in row-major order, reading each source
     * pixel from the buffer as it is at that moment. The caller promises
     * that both rectangles lie inside the visible area. No byte outside the
     * destination changes; when the copy is `CopyExact` the destination ends up
     * holding the source as it was before the copy.
     */
    method InternalBlt(sx: usize, sy: usize, w: usize, h: usize, dx: usize, dy: usize)
      requires Valid() && sx + w <= width && sy + h <= height && dx + w <= width && dy + h <= height
      modifies buffer
      ensures forall i :: 0 <= i < buffer.Length && !InRect(i, stride, dx, dy, w, h) ==> buffer[i] == old(buffer[i])
      ensures CopyExact(sx, sy, dx, dy, w, h) ==>
        buffer[..] == Painted(old(buffer[..]), stride, dx, dy, w, h, MovedCells(old(buffer[..]), stride, height, width, sx, sy, w, h))
    {
      ghost var b0 := buffer[..];
      ghost var cells := MovedCells(b0, stride, height, width, sx, sy, w, h);
      PaintStart(b0, stride, dx, dy, w, h, cells);
      var row := 0;
      while row < h
        invariant row <= h
        invariant forall i :: 0 <= i < buffer.Length && !Done(i, stride, dx, dy, w, row, 0) ==> buffer[i] == b0[i]
        invariant CopyExact(sx, sy, dx, dy, w, h) ==> buffer[..] == Paint(b0, stride, dx, dy, w, h, row, 0, cells)
      {
        MoveRow(b0, sx, sy, w, h, dx, dy, row);
        PaintNextRow(b0, stride, dx, dy, w, h, row, cells);
        row := row + 1;
      }
    }

    /** One row of `internal_blt`'s copy. */
    method MoveRow(ghost b0: seq<byte>, sx: usize, sy: usize, w: usize, h: usize, dx: usize, dy: usize, row: nat)
      requires Valid() && sx + w <= width && sy + h <= height && dx + w <= width && dy + h <= height && row < h
      requires |b0| == buffer.Length
      requires forall i :: 0 <= i < buffer.Length && !Done(i, stride, dx, dy, w, row, 0) ==> buffer[i] == b0[i]
      requires CopyExact(sx, sy, dx, dy, w, h) ==>
        buffer[..] == Paint(b0, stride, dx, dy, w, h, row, 0, MovedCells(b0, stride, height, width, sx, sy, w, h))
      modifies buffer
      ensures forall i :: 0 <= i < buffer.Length && !Done(i, stride, dx, dy, w, row, w) ==> buffer[i] == b0[i]
      ensures CopyExact(sx, sy, dx, dy, w, h) ==>
        buffer[..] == Paint(b0, stride, dx, dy, w, h, row, w, MovedCells(b0, stride, height, width, sx, sy, w, h))
    {
      ghost var cells := MovedCells(b0, stride, height, width, sx, sy, w, h);
      var col := 0;
      while col < w
        invariant 0 <= col <= w
        invariant forall i :: 0 <= i < buffer.Length && !Done(i, stride, dx, dy, w, row, col) ==> buffer[i] == b0[i]
        invariant CopyExact(sx, sy, dx, dy, w, h) ==> buffer[..] == Paint(b0, stride, dx, dy, w, h, row, col, cells)
      {
        MoveCell(b0, sx, sy, w, h, dx, dy, row, col);
        col := col + 1;
      }
    }

    /** One pixel of `internal_blt`'s copy: read cell (`col`, `row`) of the source, store it in the destination. */
    method MoveCell(ghost b0: seq<byte>, sx: usize, sy: usize, w: usize, h: usize, dx: usize, dy: usize, row: nat, col: nat)
      requires Valid() && sx + w <= width && sy + h <= height && dx + w <= width && dy + h <= height && row < h && col < w
      requires |b0| == buffer.Length
      requires forall i :: 0 <= i < buffer.Length && !Done(i, stride, dx, dy, w, row, col) ==> buffer[i] == b0[i]
      requires CopyExact(sx, sy, dx, dy, w, h) ==>
        buffer[..] == Paint(b0, stride, dx, dy, w, h, row, col, MovedCells(b0, stride, height, width, sx, sy, w, h))
      modifies buffer
      ensures forall i :: 0 <= i < buffer.Length && !Done(i, stride, dx, dy, w, row, col + 1) ==> buffer[i] == b0[i]
      ensures CopyExact(sx, sy, dx, dy, w, h) ==>
        buffer[..] == Paint(b0, stride, dx, dy, w, h, row, col + 1, MovedCells(b0, stride, height, width, sx, sy, w, h))
    {
      var s := Offset(stride, sx + col, sy + row);
      var d := Offset(stride, dx + col, dy + row);
      PixelInBuffer(stride, height, sx + col, sy + row);
      PixelInBuffer(stride, height, dx + col, dy + row);
      var pixel := PixelAt(buffer[..], s);
      MoveStep(b0, pixel, sx, sy, w, h, dx, dy, row, col);
      ghost var prev := buffer[..];
      WritePixel(d, pixel);
      StoreFrame(prev, b0, stride, dx, dy, w, row, col, pixel);
      ghost var cells := MovedCells(b0, stride, height, width, sx, sy, w, h);
      if CopyExact(sx, sy, dx, dy, w, h) {
        assert prev == Paint(b0, stride, dx, dy, w, h, row, col, cells);
        assert buffer[..] == Store(prev, d, pixel);
      }
    }

    /** The pixel read for the next cell, and the painted part it extends. */
    lemma MoveStep(b0: seq<byte>, pixel: seq<byte>, sx: usize, sy: usize, w: usize, h: usize, dx: usize, dy: usize, row: nat, col: nat)
      requires Valid() && sx + w <= width && sy + h <= height && dx + w <= width && dy + h <= height && row < h && col < w
      requires |b0| == buffer.Length
      requires Offset(stride, sx + col, sy + row) + 4 <= buffer.Length && Offset(stride, dx + col, dy + row) + 4 <= buffer.Length
      requires pixel == PixelAt(buffer[..], Offset(stride, sx + col, sy + row))
      requires forall i :: 0 <= i < buffer.Length && !Done(i, stride, dx, dy, w, row, col) ==> buffer[i] == b0[i]
      ensures var cells := MovedCells(b0, stride, height, width, sx, sy, w, h);
        CopyExact(sx, sy, dx, dy, w, h) ==>
          && pixel == cells(col, row)
          && Paint(b0, stride, dx, dy, w, h, row, col + 1, cells)
             == Store(Paint(b0, stride, dx, dy, w, h, row, col, cells), Offset(stride, dx + col, dy + row), pixel)
    {
      var cells := MovedCells(b0, stride, height, width, sx, sy, w, h);
      if CopyExact(sx, sy, dx, dy, w, h) {
        var s := Offset(stride, sx + col, sy + row);
        forall j | s <= j < s + 4
          ensures buffer[j] == b0[j]
        {
          SourceUnread(stride, sx, sy, dx, dy, w, h, row, col, j);
        }
        assert pixel == PixelAt(b0, s);
        PaintNextCol(b0, stride, dx, dy, w, h, row, col, cells);
      }
    }

    /**
     * `write_bitmap`: panics unless the three checks hold; otherwise each
     * cell of the `w` by `h` bitmap at (`dx`, `dy`) holds the one-colour where
     * its tested bit is set and the zero-colour where it is clear.
     */
    method WriteBitmap(src: seq<byte>, offset: usize, w: usize, h: usize, srcStride: usize, dx: usize, dy: usize,
                       zeroColor: Color, oneColor: Color) returns (ok: bool)
      requires Valid()
      modifies buffer
      ensures ok <==> BitmapChecks(|src|, offset, w, h, srcStride, dx, dy, width, height)
      ensures ok ==> buffer[..] == Painted(old(buffer[..]), stride, dx, dy, w, h,
        BitmapCells(src, offset, w, h, srcStride, ColorToPixel(zeroColor, format), ColorToPixel(oneColor, format)))
      ensures !ok ==> buffer[..] == old(buffer[..])
    {
      var fits := SrcCheck(|src|, offset, w, h, srcStride);
      if fits != Some(true) || dx + w > width || dy + h > height {
        return false;
      }
      var zero := ColorToPixel(zeroColor, format);
      var one := ColorToPixel(oneColor, format);
      ghost var cells := BitmapCells(src, offset, w, h, srcStride, zero, one);
      ghost var b0 := buffer[..];
      PaintStart(b0, stride, dx, dy, w, h, cells);
      var row := 0;
      while row < h
        invariant row <= h
        invariant buffer[..] == Paint(b0, stride, dx, dy, w, h, row, 0, cells)
      {
        BitmapRow(b0, src, offset, w, h, srcStride, dx, dy, zero, one, row);
        PaintNextRow(b0, stride, dx, dy, w, h, row, cells);
        row := row + 1;
      }
      ok := true;
    }

    /** One row of `write_bitmap`'s loop. */
    method BitmapRow(ghost b0: seq<byte>, src: seq<byte>, offset: usize, w: usize, h: usize, srcStride: usize, dx: usize, dy: usize,
                     zero: seq<byte>, one: seq<byte>, row: nat)
      requires Valid() && |zero| == 4 && |one| == 4 && BitsInSrc(|src|, offset, w, h, srcStride)
      requires dx + w <= width && dy + h <= height && row < h && |b0| == buffer.Length
      requires buffer[..] == Paint(b0, stride, dx, dy, w, h, row, 0, BitmapCells(src, offset, w, h, srcStride, zero, one))
      modifies buffer
      ensures buffer[..] == Paint(b0, stride, dx, dy, w, h, row, w, BitmapCells(src, offset, w, h, srcStride, zero, one))
    {
      ghost var cells := BitmapCells(src, offset, w, h, srcStride, zero, one);
      var col := 0;
      while col < w
        invariant 0 <= col <= w
        invariant buffer[..] == Paint(b0, stride, dx, dy, w, h, row, col, cells)
      {
        var bitOffset := col + offset;
        var d := Offset(stride, dx + col, dy + row);
        PixelInBuffer(stride, height, dx + col, dy + row);
        PaintNextCol(b0, stride, dx, dy, w, h, row, col, cells);
        assert BitIndex(offset, srcStride, col, row) == bitOffset + row * srcStride;
        if MsbBit(src[(bitOffset + row * srcStride) / 8], bitOffset % 8) {
          assert cells(col, row) == one;
          WritePixel(d, one);
        } else {
          assert cells(col, row) == zero;
          WritePixel(d, zero);
        }
        col := col + 1;
      }
    }
  }
}
