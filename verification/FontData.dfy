/** The tables of a font (lib/EpdFont/EpdFontData.h) and what its compressed glyphs stand for. */
module FontData {
  import opened Bytes
  import opened Intervals
  import opened Repacking

  datatype EpdGlyph = EpdGlyph(width: nat, height: nat, advanceX: nat, left: int, top: int, dataLength: nat,
                               dataOffset: nat)

  datatype EpdFontGroup = EpdFontGroup(
    compressedOffset: nat, compressedSize: nat, uncompressedSize: nat, glyphCount: nat, firstGlyphIndex: nat)

  datatype EpdLigaturePair = EpdLigaturePair(left: nat, right: nat, ligatureCp: nat)

  /** Fonts are told apart by where they are, so they are objects. */
  class EpdFontData {
    const bitmap: Data
    const glyph: seq<EpdGlyph>
    const intervals: seq<EpdUnicodeInterval>
    /** Empty for uncompressed fonts. */
    const groups: seq<EpdFontGroup>
    /** Group of each glyph, for fonts grouped by frequency; the other fonts' groups are ranges of glyphs. */
    const glyphToGroup: Option<seq<nat>>
    const ligaturePairs: seq<EpdLigaturePair>

    constructor (bitmap: Data, glyph: seq<EpdGlyph>, intervals: seq<EpdUnicodeInterval>, groups: seq<EpdFontGroup>,
                 glyphToGroup: Option<seq<nat>>, ligaturePairs: seq<EpdLigaturePair>)
      ensures this.bitmap == bitmap && this.glyph == glyph && this.intervals == intervals && this.groups == groups
      ensures this.glyphToGroup == glyphToGroup && this.ligaturePairs == ligaturePairs
    {
      this.bitmap, this.glyph, this.intervals, this.groups := bitmap, glyph, intervals, groups;
      this.glyphToGroup, this.ligaturePairs := glyphToGroup, ligaturePairs;
    }
  }

  predicate InRange(group: EpdFontGroup, i: nat) {
    group.firstGlyphIndex <= i < group.firstGlyphIndex + group.glyphCount
  }

  /** First group from `from` on whose range holds glyph `i`, or the number of groups. */
  function RangeOf(groups: seq<EpdFontGroup>, i: nat, from: nat): (g: nat)
    requires from <= |groups|
    ensures from <= g <= |groups| && (g < |groups| ==> InRange(groups[g], i))
    ensures forall k :: from <= k < g ==> !InRange(groups[k], i)
    decreases |groups| - from
  {
    if from == |groups| || InRange(groups[from], i) then from else RangeOf(groups, i, from + 1)
  }

  function GroupOf(font: EpdFontData, i: nat): nat
    requires i < |font.glyph|
    requires font.glyphToGroup.Some? ==> |font.glyphToGroup.value| == |font.glyph|
  {
    if font.glyphToGroup.Some? then font.glyphToGroup.value[i] else RangeOf(font.groups, i, 0)
  }

  ghost predicate Grouped(font: EpdFontData) {
    && (font.glyphToGroup.Some? ==> |font.glyphToGroup.value| == |font.glyph|)
    && (forall i :: 0 <= i < |font.glyph| ==> GroupOf(font, i) < |font.groups|)
    && (font.glyphToGroup.None? ==>
          forall g :: 0 <= g < |font.groups| ==>
            font.groups[g].firstGlyphIndex + font.groups[g].glyphCount <= |font.glyph|)
    && (font.glyphToGroup.None? ==>
          forall g, i :: 0 <= g < |font.groups| && 0 <= i < |font.glyph| && InRange(font.groups[g], i) ==>
            GroupOf(font, i) == g)
  }

  function GlyphBytes(glyph: EpdGlyph): nat {
    AlignedSize(glyph.width, glyph.height)
  }

  /** The source's accumulation step, which skips glyphs without an extent. */
  function BytesOf(glyph: EpdGlyph): (n: nat)
    ensures n == GlyphBytes(glyph)
  {
    AlignedSizeIs(glyph.width, glyph.height);
    if glyph.width > 0 && glyph.height > 0 then (glyph.width + 3) / 4 * glyph.height else NoBytes(glyph); 0
  }

  lemma {:induction false} NoBytes(glyph: EpdGlyph)
    requires glyph.width == 0 || glyph.height == 0
    ensures GlyphBytes(glyph) == 0
  {
    AlignedSizeIs(glyph.width, glyph.height);
  }

  /** A group holds its glyphs in index order, row-aligned: the bytes of those before glyph `i`. */
  function AlignedOffset(font: EpdFontData, group: nat, i: nat): nat
    requires Grouped(font) && i <= |font.glyph|
  {
    if i == 0 then 0
    else AlignedOffset(font, group, i - 1) + if GroupOf(font, i - 1) == group then GlyphBytes(font.glyph[i - 1]) else 0
  }

  lemma {:induction false} AlignedOffsetGrows(font: EpdFontData, group: nat, i: nat, j: nat)
    requires Grouped(font) && i <= j <= |font.glyph|
    ensures AlignedOffset(font, group, i) <= AlignedOffset(font, group, j)
    decreases j
  {
    if i < j {
      AlignedOffsetGrows(font, group, i, j - 1);
    }
  }

  /** The offset behind a glyph of a range group. */
  lemma {:induction false} NextOffset(font: EpdFontData, g: nat, i: nat)
    requires Grouped(font) && font.glyphToGroup.None? && g < |font.groups| && InRange(font.groups[g], i)
    requires i < |font.glyph|
    ensures GroupOf(font, i) == g && AlignedOffset(font, g, i + 1) == AlignedOffset(font, g, i) + BytesOf(font.glyph[i])
  {
  }

  /** Nothing of a range group comes before its first glyph. */
  lemma {:induction false} AlignedOffsetBefore(font: EpdFontData, group: nat, i: nat)
    requires Grouped(font) && font.glyphToGroup.None? && group < |font.groups|
    requires i <= font.groups[group].firstGlyphIndex && i <= |font.glyph|
    ensures AlignedOffset(font, group, i) == 0
  {
    if i > 0 {
      AlignedOffsetBefore(font, group, i - 1);
      assert !InRange(font.groups[group], i - 1);
    }
  }

  /** What the font generator guarantees of a compressed font. */
  ghost predicate Compressed(font: EpdFontData) {
    && Grouped(font)
    && (forall i :: 0 <= i < |font.glyph| ==> font.glyph[i].dataLength == PackedLength(font.glyph[i]))
    && (forall g :: 0 <= g < |font.groups| ==>
          && font.groups[g].compressedOffset + font.groups[g].compressedSize <= |font.bitmap|
          && AlignedOffset(font, g, |font.glyph|) <= font.groups[g].uncompressedSize)
  }

  function PackedLength(glyph: EpdGlyph): nat {
    (glyph.height * glyph.width + 3) / 4
  }

  /** Inflates its first argument to as many bytes as its second says, if it can. */
  type Inflate = (Data, nat) -> Option<Data>

  /** A group inflated. */
  function Inflated(inflate: Inflate, font: EpdFontData, group: nat): (d: Option<Data>)
    requires group < |font.groups|
    requires font.groups[group].compressedOffset + font.groups[group].compressedSize <= |font.bitmap|
    ensures d.Some? ==> |d.value| == font.groups[group].uncompressedSize
  {
    var g := font.groups[group];
    var d := inflate(font.bitmap[g.compressedOffset..g.compressedOffset + g.compressedSize], g.uncompressedSize);
    if d.Some? && |d.value| == g.uncompressedSize then d else None
  }

  lemma {:induction false} GlyphInGroup(font: EpdFontData, i: nat)
    requires Compressed(font) && i < |font.glyph|
    ensures GroupOf(font, i) < |font.groups|
    ensures AlignedOffset(font, GroupOf(font, i), i) + GlyphBytes(font.glyph[i])
         <= font.groups[GroupOf(font, i)].uncompressedSize
  {
    AlignedOffsetGrows(font, GroupOf(font, i), i + 1, |font.glyph|);
  }

  /** Where glyph `i` starts in its inflated group. */
  function GlyphAt(inflated: Data, font: EpdFontData, i: nat): (aligned: Data)
    requires Compressed(font) && i < |font.glyph| && |inflated| == font.groups[GroupOf(font, i)].uncompressedSize
    ensures |aligned| >= GlyphBytes(font.glyph[i])
  {
    GlyphInGroup(font, i);
    inflated[AlignedOffset(font, GroupOf(font, i), i)..]
  }

  /** The packed bitmap of a glyph, decoded without any cache; none when its group does not inflate. */
  function Decoded(inflate: Inflate, font: EpdFontData, i: nat): Option<Data>
    requires Compressed(font) && i < |font.glyph|
  {
    GlyphInGroup(font, i);
    var glyph := font.glyph[i];
    match Inflated(inflate, font, GroupOf(font, i))
    case None => None
    case Some(d) => Some(Packed(GlyphAt(d, font, i), glyph.width, glyph.height))
  }

  // --- What that is, on the bytes of the font ---

  /** Glyph `i` is one of group `g`. */
  ghost predicate Holds(font: EpdFontData, g: nat, i: nat) {
    && g < |font.groups| && i < |font.glyph|
    && match font.glyphToGroup
       case Some(groups) => i < |groups| && groups[i] == g
       case None => font.groups[g].firstGlyphIndex <= i < font.groups[g].firstGlyphIndex + font.groups[g].glyphCount
  }

  /** The compressed bytes of group `g` are `packed`, with `before` in front of them. */
  ghost predicate Stored(font: EpdFontData, g: nat, before: Data, packed: Data, after: Data) {
    && g < |font.groups| && font.bitmap == before + packed + after
    && font.groups[g].compressedOffset == |before| && font.groups[g].compressedSize == |packed|
  }

  /** The aligned offset sums up the padded rows of the group's glyphs. */
  lemma {:induction false} AlignedOffsetStep(font: EpdFontData, g: nat, i: nat)
    requires Grouped(font) && g < |font.groups| && i < |font.glyph|
    ensures AlignedOffset(font, g, 0) == 0
    ensures AlignedOffset(font, g, i + 1) == AlignedOffset(font, g, i)
                                             + if Holds(font, g, i)
                                               then font.glyph[i].height * ((font.glyph[i].width + 3) / 4) else 0
  {
    AlignedSizeIs(font.glyph[i].width, font.glyph[i].height);
    assert font.glyphToGroup.None? ==> InRange(font.groups[GroupOf(font, i)], i);
  }

  /** A glyph is decoded from its own group's compressed bytes, wherever in the font they are: their contents are
      taken from the glyph's offset on and packed. There is no bitmap exactly when those bytes do not inflate to the
      group's size. */
  lemma {:induction false} DecodedIs(inflate: Inflate, font: EpdFontData, g: nat, i: nat, before: Data, packed: Data,
                                     after: Data)
    requires Compressed(font) && Holds(font, g, i) && Stored(font, g, before, packed, after)
    ensures AlignedOffset(font, g, i) + GlyphBytes(font.glyph[i]) <= font.groups[g].uncompressedSize
    ensures
      match inflate(packed, font.groups[g].uncompressedSize)
      case None => Decoded(inflate, font, i) == None
      case Some(d) =>
        Decoded(inflate, font, i) ==
          if |d| != font.groups[g].uncompressedSize then None
          else Some(Packed(d[AlignedOffset(font, g, i)..], font.glyph[i].width, font.glyph[i].height))
  {
    assert GroupOf(font, i) == g by {
      assert font.glyphToGroup.None? ==> InRange(font.groups[g], i);
    }
    GlyphInGroup(font, i);
    InflatedIs(inflate, font, g, before, packed, after);
  }

  lemma {:induction false} InflatedIs(inflate: Inflate, font: EpdFontData, g: nat, before: Data, packed: Data,
                                      after: Data)
    requires Stored(font, g, before, packed, after)
    ensures Inflated(inflate, font, g) ==
      match inflate(packed, font.groups[g].uncompressedSize)
      case None => None
      case Some(d) => if |d| == font.groups[g].uncompressedSize then Some(d) else None
  {
    assert font.bitmap[|before|..|before| + |packed|] == packed;
  }

  /** Pixel (x, y) of a decoded glyph is the one at its place in the padded rows of its group. */
  lemma {:induction false} DecodedPixel(inflate: Inflate, font: EpdFontData, g: nat, i: nat, before: Data,
                                        packed: Data, after: Data, d: Data, x: nat, y: nat, k: nat, at: nat)
    requires Compressed(font) && Holds(font, g, i) && Stored(font, g, before, packed, after)
    requires inflate(packed, font.groups[g].uncompressedSize) == Some(d) && |d| == font.groups[g].uncompressedSize
    requires x < font.glyph[i].width && y < font.glyph[i].height && k == y * font.glyph[i].width + x
    requires at == y * ((font.glyph[i].width + 3) / 4) + x / 4
    ensures Decoded(inflate, font, i).Some? && AlignedOffset(font, g, i) + at < |d|
    ensures |Decoded(inflate, font, i).value| == (font.glyph[i].height * font.glyph[i].width + 3) / 4 > k / 4
    ensures PixelOf(Decoded(inflate, font, i).value[k / 4], k % 4) == PixelOf(d[AlignedOffset(font, g, i) + at], x % 4)
  {
    DecodedIs(inflate, font, g, i, before, packed, after);
    PixelFrom(d, AlignedOffset(font, g, i), font.glyph[i].width, font.glyph[i].height, x, y, k, at);
  }

  lemma {:induction false} PixelFrom(d: Data, offset: nat, width: nat, height: nat, x: nat, y: nat, k: nat, at: nat)
    requires offset + AlignedSize(width, height) <= |d| && x < width && y < height
    requires k == y * width + x && at == y * ((width + 3) / 4) + x / 4
    ensures offset + at < |d| && k / 4 < |Packed(d[offset..], width, height)| == (height * width + 3) / 4
    ensures PixelOf(Packed(d[offset..], width, height)[k / 4], k % 4) == PixelOf(d[offset + at], x % 4)
  {
    PixelMoves(d[offset..], width, height, x, y, k, at);
  }

  /** What surrounds a group's compressed bytes does not matter to its glyphs: another font that stores the same bytes
      elsewhere, for the same glyphs in the same groups, decodes them to the same bitmaps. */
  lemma {:induction false} DecodedElsewhere(inflate: Inflate, font: EpdFontData, other: EpdFontData, g: nat, i: nat,
                                            before: Data, packed: Data, after: Data, before1: Data, after1: Data)
    requires Compressed(font) && Holds(font, g, i) && Stored(font, g, before, packed, after)
    requires Compressed(other) && Holds(other, g, i) && Stored(other, g, before1, packed, after1)
    requires other.glyph == font.glyph && other.groups[g].uncompressedSize == font.groups[g].uncompressedSize
    requires forall k :: 0 <= k < i ==> (Holds(other, g, k) <==> Holds(font, g, k))
    ensures Decoded(inflate, other, i) == Decoded(inflate, font, i)
  {
    SameOffset(font, other, g, i);
    DecodedIs(inflate, font, g, i, before, packed, after);
    DecodedIs(inflate, other, g, i, before1, packed, after1);
  }

  lemma {:induction false} SameOffset(font: EpdFontData, other: EpdFontData, g: nat, i: nat)
    requires Grouped(font) && Grouped(other) && g < |font.groups| && g < |other.groups| && i <= |font.glyph|
    requires other.glyph == font.glyph && forall k :: 0 <= k < i ==> (Holds(other, g, k) <==> Holds(font, g, k))
    ensures AlignedOffset(other, g, i) == AlignedOffset(font, g, i)
  {
    if i > 0 {
      SameOffset(font, other, g, i - 1);
      AlignedOffsetStep(font, g, i - 1);
      AlignedOffsetStep(other, g, i - 1);
      assert Holds(other, g, i - 1) <==> Holds(font, g, i - 1);
    }
  }
}
