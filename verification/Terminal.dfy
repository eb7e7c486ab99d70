/**
 * The text terminal over the framebuffer (kernel/src/out/terminal.rs):
 * glyphs of a PSF font are drawn left to right along the bottom band of
 * the screen; a newline, or a glyph that would not fit in the row, scrolls
 * the screen up by one glyph height and clears the band.
 *
 * The terminal's state is the framebuffer's bytes and the column of the
 * next glyph. A panic halts the kernel, so the state after one is left
 * unstated.
 */
module Terminal {
  import opened Wrappers
  import Psf
  import Arith
  import FB = FrameBuffer

  const NEWLINE: nat := 0x0a

  /** `n + 7 & !7`: `n` rounded up to a multiple of eight. */
  function RoundUp8(n: nat): (r: nat)
    ensures r % 8 == 0 && n <= r < n + 8
  {
    (n + 7) - (n + 7) % 8
  }

  /**
   * The glyph `write_str` draws for code point `c` as written: glyph 0 when
   * `c > glyph_count`, otherwise glyph `c`.
   */
  function GlyphIndexAsWritten(c: nat, glyphCount: nat): nat {
    if c > glyphCount then 0 else c
  }

  /**
   * The comparison lets `c == glyph_count` through, one past the last glyph:
   * in a font file that ends after its glyphs, that glyph is missing, and the
   * `unwrap` in `write_char` panics.
   */
  lemma GlyphIndexAsWrittenMissing(font: Psf.PsfFont)
    requires var h := font.header; |font.data| == h.headerSize + h.glyphSize * h.glyphCount && h.glyphSize > 0
    ensures GlyphIndexAsWritten(font.header.glyphCount, font.header.glyphCount) == font.header.glyphCount
    ensures !(Psf.GetGlyph(font, font.header.glyphCount).Ok? && Psf.GetGlyph(font, font.header.glyphCount).value.Some?)
  {
  }

  /** The evident intent: glyph 0 for every code point the font has no glyph for. */
  function GlyphIndex(c: nat, glyphCount: nat): (g: nat)
    ensures glyphCount > 0 ==> g < glyphCount
    ensures c < glyphCount ==> g == c
    ensures c >= glyphCount ==> g == 0
  {
    if c >= glyphCount then 0 else c
  }

  /** In a font file that holds all its glyphs, every code point finds a glyph. */
  lemma GlyphIndexFound(font: Psf.PsfFont, c: nat)
    requires var h := font.header; h.headerSize + h.glyphSize * h.glyphCount <= |font.data| < Psf.USIZE_LIMIT
    requires font.header.glyphCount > 0
    ensures Psf.GetGlyph(font, GlyphIndex(c, font.header.glyphCount)).Ok?
    ensures Psf.GetGlyph(font, GlyphIndex(c, font.header.glyphCount)).value.Some?
  {
    Psf.GlyphsPresent(font, GlyphIndex(c, font.header.glyphCount));
  }

  /** A glyph's bytes, as framebuffer bytes. */
  function GlyphBytes(g: seq<Psf.byte>): (b: seq<FB.byte>)
    ensures |b| == |g| && forall k :: 0 <= k < |g| ==> b[k] == g[k]
  {
    seq(|g|, k requires 0 <= k < |g| => g[k] as FB.byte)
  }

  class Term1 {
    const fb: FB.FrameBuffer
    const font: Psf.PsfFont
    /** The column, in glyphs, of the next glyph. */
    var charCol: nat

    constructor (fb: FB.FrameBuffer, font: Psf.PsfFont)
      ensures this.fb == fb && this.font == font && charCol == 0
    {
      this.fb := fb;
      this.font := font;
      charCol := 0;
    }

    /**
     * The screen after `new_line`: every row moved up by the glyph height,
     * and the bottom band of that height black.
     */
    function Scrolled(buf: seq<FB.byte>): (r: seq<FB.byte>)
      requires fb.Valid() && |buf| == fb.buffer.Length && font.header.height <= fb.height
      ensures |r| == |buf|
    {
      var fh := font.header.height;
      var moved := FB.MovedCells(buf, fb.stride, fb.height, fb.width, 0, fh, fb.width, fb.height - fh);
      var up := FB.Painted(buf, fb.stride, 0, 0, fb.width, fb.height - fh, moved);
      FB.Painted(up, fb.stride, 0, fb.height - fh, fb.width, fh, FB.FillCells(FB.ColorToPixel(FB.BLACK, fb.format)))
    }

    /** Scrolling moves each visible pixel up by the glyph height and blackens the band it leaves. */
    lemma ScrolledPixel(buf: seq<FB.byte>, col: nat, row: nat, k: nat)
      requires fb.Valid() && |buf| == fb.buffer.Length && font.header.height <= fb.height
      requires col < fb.width && row < fb.height && k < 4
      ensures var fh := font.header.height; var o := FB.Offset(fb.stride, col, row) + k;
        && o < |buf|
        && (row + fh < fb.height ==>
             FB.Offset(fb.stride, col, row + fh) + k < |buf| && Scrolled(buf)[o] == buf[FB.Offset(fb.stride, col, row + fh) + k])
        && (row + fh >= fb.height ==> Scrolled(buf)[o] == FB.ColorToPixel(FB.BLACK, fb.format)[k])
    {
      var fh := font.header.height;
      var s := fb.stride;
      var o := FB.Offset(s, col, row) + k;
      FB.PixelInBuffer(s, fb.height, col, row);
      var moved := FB.MovedCells(buf, s, fb.height, fb.width, 0, fh, fb.width, fb.height - fh);
      var up := FB.Painted(buf, s, 0, 0, fb.width, fb.height - fh, moved);
      var black := FB.FillCells(FB.ColorToPixel(FB.BLACK, fb.format));
      FB.PixelBytes(o, s, col, row);
      if row + fh < fb.height {
        FB.PaintedCell(buf, s, 0, 0, fb.width, fb.height - fh, moved, col, row, k);
        FB.PixelInBuffer(s, fb.height, col, row + fh);
        assert Scrolled(buf)[o] == up[o];
      } else {
        FB.PaintedCell(up, s, 0, fb.height - fh, fb.width, fh, black, col, row - (fb.height - fh), k);
      }
    }

    /**
     * `new_line`: the height subtraction panics when the glyph is taller
     * than the screen; otherwise the screen scrolls and the column restarts.
     */
    method NewLine() returns (ok: bool)
      requires fb.Valid()
      modifies fb.buffer, this
      ensures ok <==> font.header.height <= fb.height
      ensures ok ==> charCol == 0 && fb.buffer[..] == Scrolled(old(fb.buffer[..]))
    {
      var fh := font.header.height;
      if fh > fb.height {
        return false;
      }
      fb.InternalBlt(0, fh, fb.width, fb.height - fh, 0, 0);
      var filled := fb.FillRect(0, fb.height - fh, fb.width, fh, FB.BLACK);
      charCol := 0;
      ok := true;
    }

    /** Where the glyph drawn in column `col` goes, and with which stride its bits are read. */
    function GlyphX(col: nat): nat {
      col * font.header.width
    }

    /**
     * The screen and column after `write_char(c)` from `buf` at column `col`,
     * or `Panic`: a newline scrolls; any other code point first scrolls when
     * its glyph would end past the right edge, then draws glyph `c` in the
     * bottom band, white on black, and moves one column on.
     */
    function WriteCharSpec(buf: seq<FB.byte>, col: nat, c: Psf.usize): Result<(seq<FB.byte>, nat)>
      requires fb.Valid() && |buf| == fb.buffer.Length
    {
      var fw, fh := font.header.width, font.header.height;
      if c == NEWLINE then
        if fh > fb.height then Panic else Ok((Scrolled(buf), 0))
      else if col + 1 >= FB.USIZE_LIMIT || (col + 1) * fw >= FB.USIZE_LIMIT then Panic
      else
        var wraps := (col + 1) * fw > fb.width;
        if wraps && fh > fb.height then Panic
        else if wraps then PutGlyphSpec(Scrolled(buf), 0, c)
        else PutGlyphSpec(buf, col, c)
    }

    /**
     * The glyph-drawing part of `write_char`: glyph `c` drawn in column `col`
     * of the bottom band, white on black, and the column moved on; `Panic`
     * when the glyph is missing or the bitmap does not fit.
     */
    function PutGlyphSpec(buf: seq<FB.byte>, col: nat, c: Psf.usize): Result<(seq<FB.byte>, nat)>
      requires fb.Valid() && |buf| == fb.buffer.Length
    {
      var fw, fh := font.header.width, font.header.height;
      var glyph := Psf.GetGlyph(font, c);
      if glyph.Panic? || glyph.value.None? || fh > fb.height then Panic
      else
        var g := GlyphBytes(glyph.value.value);
        if !FB.BitmapChecks(|g|, 0, fw, fh, RoundUp8(fw), GlyphX(col), fb.height - fh, fb.width, fb.height) then Panic
        else Ok((DrawGlyph(buf, col, g), col + 1))
    }

    /** The `write_bitmap` call of `write_char`: glyph `g` in column `col` of the bottom band, white on black. */
    function DrawGlyph(buf: seq<FB.byte>, col: nat, g: seq<FB.byte>): (r: seq<FB.byte>)
      requires fb.Valid() && |buf| == fb.buffer.Length && font.header.height <= fb.height
      requires FB.BitsInSrc(|g|, 0, font.header.width, font.header.height, RoundUp8(font.header.width))
      ensures |r| == |buf|
    {
      var fw, fh := font.header.width, font.header.height;
      var cells := FB.BitmapCells(g, 0, fw, fh, RoundUp8(fw),
        FB.ColorToPixel(FB.BLACK, fb.format), FB.ColorToPixel(FB.WHITE, fb.format));
      FB.Painted(buf, fb.stride, GlyphX(col), fb.height - fh, fw, fh, cells)
    }

    /** A successful `write_char` of a code point other than newline draws in the column it wraps to. */
    lemma WriteCharShape(buf: seq<FB.byte>, col: nat, c: Psf.usize)
      requires fb.Valid() && |buf| == fb.buffer.Length && c != NEWLINE && WriteCharSpec(buf, col, c).Ok?
      ensures var wraps := (col + 1) * font.header.width > fb.width;
        && (wraps ==> font.header.height <= fb.height)
        && WriteCharSpec(buf, col, c) == PutGlyphSpec(if wraps then Scrolled(buf) else buf, if wraps then 0 else col, c)
    {
    }

    /** What a successful glyph draw consists of. */
    lemma PutGlyphShape(buf: seq<FB.byte>, col: nat, c: Psf.usize)
      requires fb.Valid() && |buf| == fb.buffer.Length && PutGlyphSpec(buf, col, c).Ok?
      ensures font.header.height <= fb.height
      ensures Psf.GetGlyph(font, c).Ok? && Psf.GetGlyph(font, c).value.Some?
      ensures var fw := font.header.width;
        var g := GlyphBytes(Psf.GetGlyph(font, c).value.value);
        && FB.BitmapChecks(|g|, 0, fw, font.header.height, RoundUp8(fw), GlyphX(col), fb.height - font.header.height, fb.width, fb.height)
        && PutGlyphSpec(buf, col, c).value == (DrawGlyph(buf, col, g), col + 1)
    {
    }

    /** `write_char(c)`. */
    method WriteChar(c: Psf.usize) returns (ok: bool)
      requires fb.Valid()
      modifies fb.buffer, this
      ensures ok <==> WriteCharSpec(old(fb.buffer[..]), old(charCol), c).Ok?
      ensures ok ==> (fb.buffer[..], charCol) == WriteCharSpec(old(fb.buffer[..]), old(charCol), c).value
    {
      var fw, fh := font.header.width, font.header.height;
      if c == NEWLINE {
        ok := NewLine();
        return;
      }
      if charCol + 1 >= FB.USIZE_LIMIT || (charCol + 1) * fw >= FB.USIZE_LIMIT {
        return false;
      }
      if (charCol + 1) * fw > fb.width {
        ok := NewLine();
        if !ok {
          return;
        }
      }
      ok := PutGlyph(c);
    }

    /** The `get_glyph` lookup and `write_bitmap` call that end `write_char`. */
    method PutGlyph(c: Psf.usize) returns (ok: bool)
      requires fb.Valid() && (charCol + 1) * font.header.width < FB.USIZE_LIMIT
      modifies fb.buffer, this
      ensures ok <==> PutGlyphSpec(old(fb.buffer[..]), old(charCol), c).Ok?
      ensures ok ==> (fb.buffer[..], charCol) == PutGlyphSpec(old(fb.buffer[..]), old(charCol), c).value
    {
      var fw, fh := font.header.width, font.header.height;
      var glyph := Psf.GetGlyph(font, c);
      if glyph.Panic? || glyph.value.None? || fh > fb.height {
        return false;
      }
      Arith.MulSucc(fw, charCol);
      var g := GlyphBytes(glyph.value.value);
      ok := fb.WriteBitmap(g, 0, fw, fh, RoundUp8(fw), GlyphX(charCol), fb.height - fh, FB.BLACK, FB.WHITE);
      if !ok {
        return;
      }
      charCol := charCol + 1;
    }

    /**
     * After `write_char`, a newline leaves the column at 0; any other code
     * point leaves it one past the glyph just drawn, which is 1 when the
     * glyph wrapped to a new line; and the glyph drawn ends inside the row.
     */
    lemma WriteCharColumn(buf: seq<FB.byte>, col: nat, c: Psf.usize)
      requires fb.Valid() && |buf| == fb.buffer.Length && WriteCharSpec(buf, col, c).Ok?
      ensures var next := WriteCharSpec(buf, col, c).value.1;
        && (c == NEWLINE ==> next == 0)
        && (c != NEWLINE ==> next == if (col + 1) * font.header.width > fb.width then 1 else col + 1)
        && (c != NEWLINE ==> next * font.header.width <= fb.width)
    {
      var fw := font.header.width;
      if c != NEWLINE {
        var wraps := (col + 1) * fw > fb.width;
        var col1 := if wraps then 0 else col;
        WriteCharShape(buf, col, c);
        PutGlyphShape(if wraps then Scrolled(buf) else buf, col1, c);
        Arith.MulSucc(fw, col1);
        assert GlyphX(col1) + fw <= fb.width;
        assert (col1 + 1) * fw == GlyphX(col1) + fw;
      }
    }

    /**
     * The glyph of a code point other than newline is drawn in the cell its
     * new column ends: each pixel white where its bit, read most significant
     * bit first from rows of whole bytes, is set, and black where it is
     * clear. Without a wrap, nothing outside that cell changes.
     */
    lemma WriteCharGlyph(buf: seq<FB.byte>, col: nat, c: Psf.usize, glyph: seq<Psf.byte>, after: seq<FB.byte>, next: nat,
                         gx: nat, gy: nat, k: nat)
      requires fb.Valid() && |buf| == fb.buffer.Length && c != NEWLINE
      requires WriteCharSpec(buf, col, c) == Ok((after, next)) && Psf.GetGlyph(font, c) == Ok(Some(glyph))
      requires gx < font.header.width && gy < font.header.height && k < 4
      ensures next >= 1 && font.header.height <= fb.height
      ensures var b := FB.BitIndex(0, RoundUp8(font.header.width), gx, gy);
        var o := FB.Offset(fb.stride, GlyphX(next - 1) + gx, fb.height - font.header.height + gy) + k;
        && b / 8 < |glyph| && o < |after|
        && after[o] == (if FB.MsbBit(glyph[b / 8], b % 8) then FB.ColorToPixel(FB.WHITE, fb.format) else FB.ColorToPixel(FB.BLACK, fb.format))[k]
    {
      WriteCharShape(buf, col, c);
      var wraps := (col + 1) * font.header.width > fb.width;
      var buf1 := if wraps then Scrolled(buf) else buf;
      var col1 := if wraps then 0 else col;
      PutGlyphShape(buf1, col1, c);
      var g := GlyphBytes(glyph);
      assert after == DrawGlyph(buf1, col1, g) && next == col1 + 1;
      DrawGlyphPixel(buf1, col1, g, gx, gy, k);
    }

    /**
     * Each pixel of a drawn glyph is white where its bit, read most
     * significant bit first from rows of whole bytes, is set, and black
     * where it is clear.
     */
    lemma DrawGlyphPixel(buf: seq<FB.byte>, col: nat, g: seq<FB.byte>, gx: nat, gy: nat, k: nat)
      requires fb.Valid() && |buf| == fb.buffer.Length && font.header.height <= fb.height
      requires FB.BitsInSrc(|g|, 0, font.header.width, font.header.height, RoundUp8(font.header.width))
      requires GlyphX(col) + font.header.width <= fb.width
      requires gx < font.header.width && gy < font.header.height && k < 4
      ensures var b := FB.BitIndex(0, RoundUp8(font.header.width), gx, gy);
        var o := FB.Offset(fb.stride, GlyphX(col) + gx, fb.height - font.header.height + gy) + k;
        && b / 8 < |g| && o < |buf|
        && DrawGlyph(buf, col, g)[o] == (if FB.MsbBit(g[b / 8], b % 8) then FB.ColorToPixel(FB.WHITE, fb.format) else FB.ColorToPixel(FB.BLACK, fb.format))[k]
    {
      var fw, fh := font.header.width, font.header.height;
      var bs := RoundUp8(fw);
      var black, white := FB.ColorToPixel(FB.BLACK, fb.format), FB.ColorToPixel(FB.WHITE, fb.format);
      var cells := FB.BitmapCells(g, 0, fw, fh, bs, black, white);
      var b := FB.BitIndex(0, bs, gx, gy);
      assert b < 8 * |g|;
      FB.BitmapBitIsStreamBit(g, 0, bs, gx, gy);
      assert cells(gx, gy) == if FB.MsbBit(g[b / 8], b % 8) then white else black;
      FB.PixelInBuffer(fb.stride, fb.height, GlyphX(col) + gx, fb.height - fh + gy);
      FB.PaintedCell(buf, fb.stride, GlyphX(col), fb.height - fh, fw, fh, cells, gx, gy, k);
      assert DrawGlyph(buf, col, g) == FB.Painted(buf, fb.stride, GlyphX(col), fb.height - fh, fw, fh, cells);
    }

    /** Without a wrap, `write_char` changes no byte outside the new glyph's cell. */
    lemma WriteCharElsewhere(buf: seq<FB.byte>, col: nat, c: Psf.usize, after: seq<FB.byte>, next: nat, i: nat)
      requires fb.Valid() && |buf| == fb.buffer.Length && c != NEWLINE
      requires WriteCharSpec(buf, col, c) == Ok((after, next))
      requires (col + 1) * font.header.width <= fb.width && i < |buf|
      requires !FB.InRect(i, fb.stride, GlyphX(col), fb.height - font.header.height, font.header.width, font.header.height)
      ensures i < |after| && after[i] == buf[i]
    {
      WriteCharShape(buf, col, c);
      PutGlyphShape(buf, col, c);
      var g := GlyphBytes(Psf.GetGlyph(font, c).value.value);
      assert after == DrawGlyph(buf, col, g);
      DrawGlyphElsewhere(buf, col, g, i);
    }

    /** Drawing a glyph changes no byte outside its cell. */
    lemma DrawGlyphElsewhere(buf: seq<FB.byte>, col: nat, g: seq<FB.byte>, i: nat)
      requires fb.Valid() && |buf| == fb.buffer.Length && font.header.height <= fb.height
      requires FB.BitsInSrc(|g|, 0, font.header.width, font.header.height, RoundUp8(font.header.width))
      requires i < |buf|
      requires !FB.InRect(i, fb.stride, GlyphX(col), fb.height - font.header.height, font.header.width, font.header.height)
      ensures DrawGlyph(buf, col, g)[i] == buf[i]
    {
      var fw, fh := font.header.width, font.header.height;
      assert !FB.Done(i, fb.stride, GlyphX(col), fb.height - fh, fw, fh, 0);
    }

    /**
     * The screen and column after `write_str(s)`: `write_char` of each
     * character's glyph in turn, stopping at the first panic.
     */
    function WriteStrSpec(buf: seq<FB.byte>, col: nat, s: string): (r: Result<(seq<FB.byte>, nat)>)
      requires fb.Valid() && |buf| == fb.buffer.Length
      ensures r.Ok? ==> |r.value.0| == |buf|
      decreases |s|
    {
      if |s| == 0 then Ok((buf, col))
      else
        var r := WriteStrSpec(buf, col, s[..|s| - 1]);
        if r.Panic? then Panic
        else
          WriteCharLength(r.value.0, r.value.1, GlyphIndex(s[|s| - 1] as nat, font.header.glyphCount));
          WriteCharSpec(r.value.0, r.value.1, GlyphIndex(s[|s| - 1] as nat, font.header.glyphCount))
    }

    lemma WriteCharLength(buf: seq<FB.byte>, col: nat, c: Psf.usize)
      requires fb.Valid() && |buf| == fb.buffer.Length
      ensures WriteCharSpec(buf, col, c).Ok? ==> |WriteCharSpec(buf, col, c).value.0| == |buf|
    {
    }

    /** A panic part-way through the string is a panic of the whole. */
    lemma {:induction false} WriteStrPanics(buf: seq<FB.byte>, col: nat, s: string, i: nat)
      requires fb.Valid() && |buf| == fb.buffer.Length && i <= |s|
      requires WriteStrSpec(buf, col, s[..i]).Panic?
      ensures WriteStrSpec(buf, col, s).Panic?
      decreases |s| - i
    {
      if i < |s| {
        assert s[..i + 1][..i] == s[..i];
        WriteStrPanics(buf, col, s, i + 1);
      } else {
        assert s[..i] == s;
      }
    }

    /**
     * Columns stay inside the row: from a column whose glyphs end inside the
     * screen's width, `write_str` ends at such a column.
     */
    lemma WriteStrKeepsColumn(buf: seq<FB.byte>, col: nat, s: string)
      requires fb.Valid() && |buf| == fb.buffer.Length && col * font.header.width <= fb.width
      requires WriteStrSpec(buf, col, s).Ok?
      ensures WriteStrSpec(buf, col, s).value.1 * font.header.width <= fb.width
    {
      if |s| > 0 {
        var r := WriteStrSpec(buf, col, s[..|s| - 1]);
        var c := GlyphIndex(s[|s| - 1] as nat, font.header.glyphCount);
        WriteCharColumn(r.value.0, r.value.1, c);
      }
    }

    /** `write_str(s)`: each character's code point, or 0 when the font has no glyph for it, goes to `write_char`. */
    method WriteStr(s: string) returns (ok: bool)
      requires fb.Valid()
      modifies fb.buffer, this
      ensures ok <==> WriteStrSpec(old(fb.buffer[..]), old(charCol), s).Ok?
      ensures ok ==> (fb.buffer[..], charCol) == WriteStrSpec(old(fb.buffer[..]), old(charCol), s).value
    {
      ghost var b0, c0 := fb.buffer[..], charCol;
      var i := 0;
      while i < |s|
        invariant 0 <= i <= |s|
        invariant WriteStrSpec(b0, c0, s[..i]) == Ok((fb.buffer[..], charCol))
      {
        var c := s[i] as nat;
        ok := WriteChar(GlyphIndex(c, font.header.glyphCount));
        assert s[..i + 1][..i] == s[..i];
        if !ok {
          WriteStrPanics(b0, c0, s, i + 1);
          return;
        }
        i := i + 1;
      }
      assert s[..i] == s;
      ok := true;
    }
  }
}
