/**
 * PC Screen Font (version 2) header parsing and glyph lookup
 * (kernel/src/utils/psf.rs). The font is an immutable byte slice, so it
 * is a value here. Integer overflow in the glyph offset is modelled with
 * Rust's checked-arithmetic semantics: it panics.
 */
module Psf {
  import opened Wrappers

  type byte = x: int | 0 <= x < 0x100
  type u32 = x: int | 0 <= x < 0x1_0000_0000

  /** One past the largest `usize` of the 64-bit target. */
  const USIZE_LIMIT: int := 0x1_0000_0000_0000_0000

  type usize = x: int | 0 <= x < USIZE_LIMIT

  const PSF_FONT_MAGIC: u32 := 0x864a_b572

  /** The header is eight little-endian `u32` fields. */
  const HEADER_LEN: nat := 32

  /** `slice_to_u32`: the little-endian `u32` at byte offset `i`. */
  function LeU32(data: seq<byte>, i: nat): u32
    requires i + 4 <= |data|
  {
    (data[i] as int) + 0x100 * (data[i + 1] as int) + 0x1_0000 * (data[i + 2] as int) + 0x100_0000 * (data[i + 3] as int)
  }

  /** `u32::to_le_bytes`: the encoder `LeU32` inverts. */
  function LeBytes(v: u32): (b: seq<byte>)
    ensures |b| == 4
  {
    [v % 0x100, (v / 0x100) % 0x100, (v / 0x1_0000) % 0x100, v / 0x100_0000]
  }

  /** Decoding the four bytes of a `u32` gives it back. */
  lemma LeRoundTrip(v: u32, prefix: seq<byte>, suffix: seq<byte>)
    ensures LeU32(prefix + LeBytes(v) + suffix, |prefix|) == v
  {
    var data := prefix + LeBytes(v) + suffix;
    var i := |prefix|;
    assert data[i..i + 4] == LeBytes(v);
    assert data[i] == v % 0x100 && data[i + 1] == (v / 0x100) % 0x100;
    assert data[i + 2] == (v / 0x1_0000) % 0x100 && data[i + 3] == v / 0x100_0000;
    var q1 := v / 0x100;
    var q2 := q1 / 0x100;
    assert v == v % 0x100 + 0x100 * q1;
    assert q1 == q1 % 0x100 + 0x100 * q2;
    assert q2 == v / 0x1_0000;
    assert q2 == q2 % 0x100 + 0x100 * (v / 0x100_0000);
  }

  /** Encoding the decoded bytes gives them back: every four bytes are some `u32`. */
  lemma LeBytesOfDecoded(data: seq<byte>, i: nat)
    requires i + 4 <= |data|
    ensures LeBytes(LeU32(data, i)) == data[i..i + 4]
  {
    var v := LeU32(data, i);
    var a: int, b: int, c: int, d: int := data[i], data[i + 1], data[i + 2], data[i + 3];
    assert v == a + 0x100 * (b + 0x100 * (c + 0x100 * d));
    assert v % 0x100 == a && v / 0x100 == b + 0x100 * (c + 0x100 * d);
    assert (v / 0x100) % 0x100 == b && (v / 0x100) / 0x100 == c + 0x100 * d;
    assert v / 0x1_0000 == (v / 0x100) / 0x100;
    assert (v / 0x1_0000) % 0x100 == c;
    assert v / 0x100_0000 == (v / 0x1_0000) / 0x100;
    assert LeBytes(v) == [a, b, c, d];
  }

  datatype PsfFontHeader = PsfFontHeader(
    magic: u32, version: u32, headerSize: u32, flags: u32,
    glyphCount: u32, glyphSize: u32, height: u32, width: u32)

  datatype PsfFont = PsfFont(header: PsfFontHeader, data: seq<byte>)

  /**
   * `PsfFont::new`: the magic number is read first and checked; the other
   * seven fields follow at offsets 4, 8, ..., 28. Indexing past the end of
   * `data` panics like a wrong magic number does.
   */
  function New(data: seq<byte>): (r: Result<PsfFont>)
    ensures r.Panic? <==> |data| < 4 || LeU32(data, 0) != PSF_FONT_MAGIC || |data| < HEADER_LEN
    ensures r.Ok? ==> r.value.data == data && r.value.header.magic == PSF_FONT_MAGIC
    ensures r.Ok? ==>
      var h := r.value.header;
      && h.version == LeU32(data, 4) && h.headerSize == LeU32(data, 8) && h.flags == LeU32(data, 12)
      && h.glyphCount == LeU32(data, 16) && h.glyphSize == LeU32(data, 20)
      && h.height == LeU32(data, 24) && h.width == LeU32(data, 28)
  {
    if |data| < 4 then Panic
    else
      var magic := LeU32(data, 0);
      if magic != PSF_FONT_MAGIC || |data| < HEADER_LEN then Panic
      else
        Ok(PsfFont(
          PsfFontHeader(magic, LeU32(data, 4), LeU32(data, 8), LeU32(data, 12),
            LeU32(data, 16), LeU32(data, 20), LeU32(data, 24), LeU32(data, 28)),
          data))
  }

  /** The 32 bytes that encode a header, field by field. */
  function HeaderBytes(h: PsfFontHeader): (b: seq<byte>)
    ensures |b| == HEADER_LEN
  {
    LeBytes(h.magic) + LeBytes(h.version) + LeBytes(h.headerSize) + LeBytes(h.flags)
      + LeBytes(h.glyphCount) + LeBytes(h.glyphSize) + LeBytes(h.height) + LeBytes(h.width)
  }

  /** A font file that starts with an encoded header carrying the magic number parses to that header. */
  lemma NewRoundTrip(h: PsfFontHeader, rest: seq<byte>)
    requires h.magic == PSF_FONT_MAGIC
    ensures New(HeaderBytes(h) + rest) == Ok(PsfFont(h, HeaderBytes(h) + rest))
  {
    var data := HeaderBytes(h) + rest;
    var fields := [h.magic, h.version, h.headerSize, h.flags, h.glyphCount, h.glyphSize, h.height, h.width];
    forall k | 0 <= k < 8
      ensures LeU32(data, 4 * k) == fields[k]
    {
      var pre := data[..4 * k];
      var suf := data[4 * k + 4..];
      assert data[4 * k..4 * k + 4] == LeBytes(fields[k]) by {
        FieldBytes(h, rest, k);
      }
      assert data == pre + LeBytes(fields[k]) + suf;
      LeRoundTrip(fields[k], pre, suf);
    }
    assert LeU32(data, 0) == fields[0];
    assert LeU32(data, 4) == fields[1];
    assert LeU32(data, 8) == fields[2];
    assert LeU32(data, 12) == fields[3];
    assert LeU32(data, 16) == fields[4];
    assert LeU32(data, 20) == fields[5];
    assert LeU32(data, 24) == fields[6];
    assert LeU32(data, 28) == fields[7];
  }

  /** Field `k` of an encoded header sits at bytes `4k .. 4k + 4`. */
  lemma FieldBytes(h: PsfFontHeader, rest: seq<byte>, k: nat)
    requires k < 8
    ensures var fields := [h.magic, h.version, h.headerSize, h.flags, h.glyphCount, h.glyphSize, h.height, h.width];
      (HeaderBytes(h) + rest)[4 * k..4 * k + 4] == LeBytes(fields[k])
  {
    var fields := [h.magic, h.version, h.headerSize, h.flags, h.glyphCount, h.glyphSize, h.height, h.width];
    var data := HeaderBytes(h) + rest;
    forall j | 0 <= j < 4
      ensures data[4 * k + j] == LeBytes(fields[k])[j]
    {
    }
  }

  /** Where glyph `i` starts: past the header, `i` glyphs in. */
  function GlyphStart(h: PsfFontHeader, i: nat): nat {
    h.headerSize + h.glyphSize * i
  }

  /**
   * `PsfFont::get_glyph`: the `glyph_size` bytes of glyph `i`, which start
   * `header_size + glyph_size * i` bytes into the file; `None` when they run
   * past its end, a panic when the offset arithmetic overflows `usize`.
   */
  function GetGlyph(font: PsfFont, i: usize): (r: Result<Option<seq<byte>>>)
    ensures var h := font.header; var start := GlyphStart(h, i);
      r.Panic? <==> start + h.glyphSize >= USIZE_LIMIT
    ensures var h := font.header; var start := GlyphStart(h, i);
      r.Ok? ==> (r.value.Some? <==> start + h.glyphSize <= |font.data|)
    ensures var h := font.header; var start := GlyphStart(h, i);
      r.Ok? && r.value.Some? ==>
        && |r.value.value| == h.glyphSize
        && r.value.value == font.data[start .. start + h.glyphSize]
  {
    var h := font.header;
    var product := h.glyphSize * i;
    if product >= USIZE_LIMIT then Panic
    else
      var offset := h.headerSize + product;
      if offset >= USIZE_LIMIT then Panic
      else
        var end := offset + h.glyphSize;
        if end >= USIZE_LIMIT then Panic
        else if end <= |font.data| then Ok(Some(font.data[offset..end]))
        else Ok(None)
  }

  /** When the file holds all `glyph_count` glyphs, every glyph below that count is found. */
  lemma {:induction false} GlyphsPresent(font: PsfFont, i: usize)
    requires var h := font.header; h.headerSize + h.glyphSize * h.glyphCount <= |font.data|
    requires i < font.header.glyphCount && |font.data| < USIZE_LIMIT
    ensures GetGlyph(font, i).Ok? && GetGlyph(font, i).value.Some?
  {
    var h := font.header;
    MulMonotone(h.glyphSize, i + 1, h.glyphCount);
    assert h.glyphSize * (i + 1) == h.glyphSize * i + h.glyphSize;
  }

  lemma MulMonotone(a: nat, b: nat, c: nat)
    requires b <= c
    ensures a * b <= a * c
  {
  }
}
