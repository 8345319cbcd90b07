/** What a .cpfont file holds of one style (lib/EpdFont/SdCardFont.cpp). */
module SdStyle {
  import opened Bytes
  import opened FontData
  import opened Intervals

  const REPLACEMENT_GLYPH := 0xFFFD
  const EMPTY_GLYPH := EpdGlyph(0, 0, 0, 0, 0, 0, 0)

  /** `glyphs` are the glyph records that can be read whole, `bytes` is the whole file. */
  datatype StyleFile = StyleFile(
    intervals: seq<EpdUnicodeInterval>, glyphs: seq<EpdGlyph>, is2Bit: bool, bitmapFileOffset: nat, bytes: Data)

  function GlyphIndex(style: StyleFile, cp: nat): Option<nat> {
    Lookup(style.intervals, cp)
  }

  /** SdCardFont::glyphEntryValid: the data length is the packed size of the pixels and lies inside the file. */
  predicate EntryValid(style: StyleFile, glyph: EpdGlyph) {
    var pixels := glyph.width * glyph.height;
    && glyph.dataLength == (if style.is2Bit then (pixels + 3) / 4 else (pixels + 7) / 8)
    && style.bitmapFileOffset + glyph.dataOffset + glyph.dataLength <= |style.bytes|
  }

  /** A corrupt entry counts as a glyph without extent. */
  function Checked(style: StyleFile, glyph: EpdGlyph): (g: EpdGlyph)
    ensures g.dataLength > 0 ==> style.bitmapFileOffset + g.dataOffset + g.dataLength <= |style.bytes|
  {
    if EntryValid(style, glyph) then glyph else EMPTY_GLYPH
  }

  function FileGlyph(style: StyleFile, i: nat): EpdGlyph
    requires i < |style.glyphs|
  {
    Checked(style, style.glyphs[i])
  }

  function FileBitmap(style: StyleFile, i: nat): Data
    requires i < |style.glyphs|
  {
    var glyph := FileGlyph(style, i);
    var at := style.bitmapFileOffset + glyph.dataOffset;
    if glyph.dataLength == 0 then [] else style.bytes[at..at + glyph.dataLength]
  }

  /** A record counts when its length is the least number of bytes that hold its pixels, at two bits each or one, and
      its bytes lie inside the file: then it is returned as it is and its bitmap is those bytes. Every other record is a
      glyph without extent. */
  lemma {:induction false} RecordIs(style: StyleFile, i: nat)
    requires i < |style.glyphs|
    ensures
      var glyph := style.glyphs[i];
      var bits, at := (if style.is2Bit then 2 else 1) * (glyph.width * glyph.height),
                      style.bitmapFileOffset + glyph.dataOffset;
      if bits <= 8 * glyph.dataLength < bits + 8 && at + glyph.dataLength <= |style.bytes|
      then FileGlyph(style, i) == glyph && FileBitmap(style, i) == style.bytes[at..at + glyph.dataLength]
      else FileGlyph(style, i) == EpdGlyph(0, 0, 0, 0, 0, 0, 0) && FileBitmap(style, i) == []
  {
    var glyph := style.glyphs[i];
    var pixels := glyph.width * glyph.height;
    assert EntryValid(style, glyph) <==>
      (if style.is2Bit then 2 else 1) * pixels <= 8 * glyph.dataLength < (if style.is2Bit then 2 else 1) * pixels + 8
      && style.bitmapFileOffset + glyph.dataOffset + glyph.dataLength <= |style.bytes|;
  }

  /** A valid two-bit record is as long as the bitmaps the decompressor packs. */
  lemma {:induction false} TwoBitLength(style: StyleFile, i: nat)
    requires i < |style.glyphs| && style.is2Bit && FileGlyph(style, i) != EMPTY_GLYPH
    ensures FileGlyph(style, i) == style.glyphs[i] && style.glyphs[i].dataLength == PackedLength(style.glyphs[i])
    ensures |FileBitmap(style, i)| == PackedLength(style.glyphs[i])
  {
    var glyph := style.glyphs[i];
    assert glyph.width * glyph.height == glyph.height * glyph.width;
  }

  /** The glyph whose advance a codepoint gets: its own, or the replacement's. */
  function AdvanceIndex(style: StyleFile, cp: nat): Option<nat> {
    if GlyphIndex(style, cp).Some? then GlyphIndex(style, cp) else GlyphIndex(style, REPLACEMENT_GLYPH)
  }

  /** A codepoint advances by its own glyph, which comes after those of all covered codepoints below, whenever the
      intervals cover it. One that they do not cover advances by the glyph of U+FFFD if they cover that, and else not
      at all. */
  lemma {:induction false} AdvanceIs(style: StyleFile, glyphCount: nat, cp: nat)
    requires Layout(style.intervals, glyphCount)
    ensures Covered(style.intervals, cp) ==> AdvanceIndex(style, cp) == Some(Rank(style.intervals, cp))
    ensures !Covered(style.intervals, cp) && Covered(style.intervals, 0xFFFD) ==>
      AdvanceIndex(style, cp) == Some(Rank(style.intervals, 0xFFFD))
    ensures Resolves(style, cp) <==> Covered(style.intervals, cp) || Covered(style.intervals, 0xFFFD)
  {
    LookupIsRank(style.intervals, glyphCount, cp);
    LookupIsRank(style.intervals, glyphCount, 0xFFFD);
  }

  predicate Resolves(style: StyleFile, cp: nat) {
    AdvanceIndex(style, cp).Some?
  }
}
