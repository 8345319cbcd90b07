/** Aligned offsets and extraction of a page's glyphs, group by group (FontDecompressor::prewarmCache, steps 3b
    and 4). */
module PageExtract {
  import opened Bytes
  import opened Repacking
  import opened FontData
  import opened PageGlyphs

  // --- Step 3b: where each glyph starts in its group ---

  ghost predicate InTable(font: EpdFontData, es: seq<PageGlyphEntry>) {
    Compressed(font) && Sorted(es) && forall k :: 0 <= k < |es| ==> es[k].glyphIndex < |font.glyph|
  }

  /** `es` is `was` but for aligned offsets. */
  ghost predicate OnlyAligned(es: seq<PageGlyphEntry>, was: seq<PageGlyphEntry>) {
    |es| == |was| && forall k :: 0 <= k < |es| ==> es[k] == was[k].(alignedOffset := es[k].alignedOffset)
  }

  ghost predicate AlignedRight(font: EpdFontData, e: PageGlyphEntry)
    requires Grouped(font) && e.glyphIndex < |font.glyph|
  {
    e.alignedOffset == AlignedOffset(font, GroupOf(font, e.glyphIndex), e.glyphIndex)
  }

  /** The entries below glyph `i` whose group is among `groups` have the right offset. */
  ghost predicate AlignedBelow(font: EpdFontData, es: seq<PageGlyphEntry>, groups: seq<nat>, i: nat)
    requires InTable(font, es)
  {
    forall k :: 0 <= k < |es| && es[k].glyphIndex < i && GroupOf(font, es[k].glyphIndex) in groups ==>
      AlignedRight(font, es[k])
  }

  /** Records the offset of glyph `i`, if the page needs it. */
  method SetAligned(font: EpdFontData, es: seq<PageGlyphEntry>, i: nat, offset: nat) returns (r: seq<PageGlyphEntry>)
    requires InTable(font, es) && i < |font.glyph| && offset == AlignedOffset(font, GroupOf(font, i), i)
    ensures OnlyAligned(r, es)
    ensures forall k :: 0 <= k < |es| && es[k].glyphIndex != i ==> r[k] == es[k]
    ensures forall k :: 0 <= k < |es| && es[k].glyphIndex == i ==> AlignedRight(font, r[k])
  {
    r := es;
    var k := FindEntry(es, i);
    if k.Some? {
      r := es[k.value := es[k.value].(alignedOffset := offset)];
    }
  }

  method PositionOf(groups: seq<nat>, g: nat) returns (p: nat)
    ensures p <= |groups| && (p < |groups| ==> groups[p] == g) && (p == |groups| <==> g !in groups)
  {
    p := 0;
    while p < |groups|
      invariant p <= |groups| && g !in groups[..p]
    {
      if groups[p] == g { return; }
      p := p + 1;
    }
  }

  /** One pass over all glyphs with a running offset per needed group. */
  method ScanFrequency(font: EpdFontData, es: seq<PageGlyphEntry>, groups: seq<nat>, totalGlyphs: nat)
    returns (r: seq<PageGlyphEntry>)
    requires InTable(font, es) && font.glyphToGroup.Some? && totalGlyphs <= |font.glyph| && Distinct(groups)
    ensures OnlyAligned(r, es) && InTable(font, r) && AlignedBelow(font, r, groups, totalGlyphs)
  {
    r := es;
    var tracker := seq(|groups|, _ => 0);
    var i: nat := 0;
    while i < totalGlyphs
      invariant i <= totalGlyphs && OnlyAligned(r, es) && InTable(font, r) && AlignedBelow(font, r, groups, i)
      invariant |tracker| == |groups|
      invariant forall p :: 0 <= p < |groups| ==> tracker[p] == AlignedOffset(font, groups[p], i)
    {
      var p := PositionOf(groups, font.glyphToGroup.value[i]);
      if p < |groups| {
        r := SetAligned(font, r, i, tracker[p]);
        tracker := tracker[p := tracker[p] + BytesOf(font.glyph[i])];
      }
      i := i + 1;
    }
  }

  /** One glyph of a range group. */
  method AlignOne(font: EpdFontData, es: seq<PageGlyphEntry>, g: nat, i: nat, off: nat, ghost was: seq<PageGlyphEntry>)
    returns (r: seq<PageGlyphEntry>, next: nat)
    requires InTable(font, es) && font.glyphToGroup.None? && g < |font.groups| && InRange(font.groups[g], i)
    requires OnlyAligned(es, was) && AlignedBelow(font, es, [g], i) && off == AlignedOffset(font, g, i)
    requires forall k :: 0 <= k < |was| && GroupOf(font, was[k].glyphIndex) != g ==> es[k] == was[k]
    ensures OnlyAligned(r, was) && InTable(font, r) && AlignedBelow(font, r, [g], i + 1)
    ensures next == AlignedOffset(font, g, i + 1)
    ensures forall k :: 0 <= k < |was| && GroupOf(font, was[k].glyphIndex) != g ==> r[k] == was[k]
  {
    assert GroupOf(font, i) == g;
    r := SetAligned(font, es, i, off);
    next := off + BytesOf(font.glyph[i]);
  }

  /** The glyphs of one range group with a running offset. */
  method ScanRange(font: EpdFontData, es: seq<PageGlyphEntry>, g: nat) returns (r: seq<PageGlyphEntry>)
    requires InTable(font, es) && font.glyphToGroup.None? && g < |font.groups|
    ensures OnlyAligned(r, es) && InTable(font, r) && AlignedBelow(font, r, [g], |font.glyph|)
    ensures forall k :: 0 <= k < |es| && GroupOf(font, es[k].glyphIndex) != g ==> r[k] == es[k]
  {
    var group := font.groups[g];
    r := es;
    var off, j: nat := 0, 0;
    AlignedOffsetBefore(font, g, group.firstGlyphIndex);
    NoneBefore(font, es, g);
    while j < group.glyphCount
      invariant j <= group.glyphCount && off == AlignedOffset(font, g, group.firstGlyphIndex + j)
      invariant OnlyAligned(r, es) && InTable(font, r) && AlignedBelow(font, r, [g], group.firstGlyphIndex + j)
      invariant forall k :: 0 <= k < |es| && GroupOf(font, es[k].glyphIndex) != g ==> r[k] == es[k]
    {
      r, off := AlignOne(font, r, g, group.firstGlyphIndex + j, off, es);
      j := j + 1;
    }
    NoneAfter(font, r, g);
  }

  lemma {:induction false} NoneBefore(font: EpdFontData, es: seq<PageGlyphEntry>, g: nat)
    requires InTable(font, es) && font.glyphToGroup.None? && g < |font.groups|
    ensures AlignedBelow(font, es, [g], font.groups[g].firstGlyphIndex)
  {
    forall k | 0 <= k < |es| && es[k].glyphIndex < font.groups[g].firstGlyphIndex
      ensures GroupOf(font, es[k].glyphIndex) != g
    {
      assert !InRange(font.groups[g], es[k].glyphIndex);
    }
  }

  lemma {:induction false} NoneAfter(font: EpdFontData, es: seq<PageGlyphEntry>, g: nat)
    requires InTable(font, es) && font.glyphToGroup.None? && g < |font.groups|
    requires AlignedBelow(font, es, [g], font.groups[g].firstGlyphIndex + font.groups[g].glyphCount)
    ensures AlignedBelow(font, es, [g], |font.glyph|)
  {
    forall k | 0 <= k < |es| && es[k].glyphIndex >= font.groups[g].firstGlyphIndex + font.groups[g].glyphCount
      ensures GroupOf(font, es[k].glyphIndex) != g
    {
      assert !InRange(font.groups[g], es[k].glyphIndex);
    }
  }

  method ScanRanges(font: EpdFontData, es: seq<PageGlyphEntry>, groups: seq<nat>) returns (r: seq<PageGlyphEntry>)
    requires InTable(font, es) && font.glyphToGroup.None? && Distinct(groups) && InGroups(font, groups)
    ensures OnlyAligned(r, es) && InTable(font, r) && AlignedBelow(font, r, groups, |font.glyph|)
  {
    r := es;
    var p: nat := 0;
    while p < |groups|
      invariant p <= |groups| && OnlyAligned(r, es) && InTable(font, r)
      invariant AlignedBelow(font, r, groups[..p], |font.glyph|)
    {
      ghost var was := r;
      r := ScanRange(font, r, groups[p]);
      MoreAligned(font, was, r, groups, p);
      p := p + 1;
    }
    assert groups[..p] == groups;
  }

  lemma {:induction false} MoreAligned(font: EpdFontData, was: seq<PageGlyphEntry>, es: seq<PageGlyphEntry>,
                                       groups: seq<nat>, p: nat)
    requires InTable(font, was) && InTable(font, es) && OnlyAligned(es, was) && p < |groups|
    requires AlignedBelow(font, was, groups[..p], |font.glyph|) && AlignedBelow(font, es, [groups[p]], |font.glyph|)
    requires forall k :: 0 <= k < |es| && GroupOf(font, was[k].glyphIndex) != groups[p] ==> es[k] == was[k]
    ensures AlignedBelow(font, es, groups[..p + 1], |font.glyph|)
  {
    forall k | 0 <= k < |es| && GroupOf(font, es[k].glyphIndex) in groups[..p + 1] ensures AlignedRight(font, es[k]) {
      if GroupOf(font, es[k].glyphIndex) == groups[p] {
      } else {
        assert GroupOf(font, es[k].glyphIndex) in groups[..p];
      }
    }
  }

  // --- Step 4: extraction ---

  /** An extracted glyph's bytes are its packed bitmap. */
  ghost predicate EntryOk(inflate: Inflate, font: EpdFontData, e: PageGlyphEntry, buffer: Data, used: nat)
    requires Compressed(font) && used <= |buffer|
  {
    && e.glyphIndex < |font.glyph|
    && (e.bufferOffset.Some? ==>
          var at, size := e.bufferOffset.value, PackedLength(font.glyph[e.glyphIndex]);
          at + size <= used && Decoded(inflate, font, e.glyphIndex) == Some(buffer[at..at + size]))
  }

  ghost predicate EntriesOk(inflate: Inflate, font: EpdFontData, es: seq<PageGlyphEntry>, buffer: Data, used: nat)
    requires Compressed(font) && used <= |buffer|
  {
    forall k :: 0 <= k < |es| ==> EntryOk(inflate, font, es[k], buffer, used)
  }

  /** `es` is `was` but for glyphs extracted since. */
  ghost predicate OnlyExtracted(es: seq<PageGlyphEntry>, was: seq<PageGlyphEntry>) {
    |es| == |was| && forall k :: 0 <= k < |es| ==>
      es[k] == was[k] || (was[k].bufferOffset.None? && es[k] == was[k].(bufferOffset := es[k].bufferOffset))
  }

  /** The entries are done up to `used`, and the rest of the buffer has room for those that are not. */
  ghost predicate Progress(inflate: Inflate, font: EpdFontData, es: seq<PageGlyphEntry>, buffer: Data, used: nat) {
    && Compressed(font) && used <= |buffer| && EntriesOk(inflate, font, es, buffer, used)
    && used + Pending(font, es) == |buffer|
  }

  lemma {:induction false} PendingUpdate(font: EpdFontData, es: seq<PageGlyphEntry>, k: nat, e: PageGlyphEntry)
    requires k < |es|
    ensures Pending(font, es[k := e]) == Pending(font, es) - PendingOf(font, es[k]) + PendingOf(font, e)
  {
    assert es == es[..k] + [es[k]] + es[k + 1..];
    assert es[k := e] == es[..k] + [e] + es[k + 1..];
    PendingSplit(font, es[..k] + [es[k]], es[k + 1..]);
    PendingSplit(font, es[..k], [es[k]]);
    PendingSplit(font, es[..k] + [e], es[k + 1..]);
    PendingSplit(font, es[..k], [e]);
  }

  /** Extracts one glyph from its inflated group to the end of the used part. */
  method ExtractOne(inflate: Inflate, font: EpdFontData, inflated: Data, es: seq<PageGlyphEntry>, k: nat,
                    buffer: array<Byte>, used: nat) returns (r: seq<PageGlyphEntry>, w: nat)
    requires Progress(inflate, font, es, buffer[..], used) && k < |es| && es[k].bufferOffset.None?
    requires Inflated(inflate, font, GroupOf(font, es[k].glyphIndex)) == Some(inflated) && AlignedRight(font, es[k])
    modifies buffer
    ensures Progress(inflate, font, r, buffer[..], w)
    ensures r == es[k := es[k].(bufferOffset := Some(used))]
  {
    var i := es[k].glyphIndex;
    var glyph := font.glyph[i];
    r, w := es[k := es[k].(bufferOffset := Some(used))], used + glyph.dataLength;
    PendingUpdate(font, es, k, r[k]);
    ghost var was := buffer[..];
    ghost var packed := PackedOf(inflate, font, inflated, es[k]);
    CompactSingleGlyph(inflated[es[k].alignedOffset..], buffer, used, glyph.width, glyph.height);
    ExtractedOk(inflate, font, es, was, buffer[..], used, k, packed);
  }

  lemma {:induction false} PackedOf(inflate: Inflate, font: EpdFontData, inflated: Data, e: PageGlyphEntry)
    returns (packed: Data)
    requires Compressed(font) && e.glyphIndex < |font.glyph| && AlignedRight(font, e)
    requires Inflated(inflate, font, GroupOf(font, e.glyphIndex)) == Some(inflated)
    ensures e.alignedOffset + GlyphBytes(font.glyph[e.glyphIndex]) <= |inflated|
    ensures Decoded(inflate, font, e.glyphIndex) == Some(packed) && |packed| == PackedLength(font.glyph[e.glyphIndex])
    ensures packed == Packed(inflated[e.alignedOffset..], font.glyph[e.glyphIndex].width,
                             font.glyph[e.glyphIndex].height)
  {
    var glyph := font.glyph[e.glyphIndex];
    GlyphInGroup(font, e.glyphIndex);
    packed := Packed(GlyphAt(inflated, font, e.glyphIndex), glyph.width, glyph.height);
    PackedPadding(GlyphAt(inflated, font, e.glyphIndex), glyph.width, glyph.height, 0);
  }

  lemma {:induction false} ExtractedOk(inflate: Inflate, font: EpdFontData, es: seq<PageGlyphEntry>, was: Data,
                                       now: Data, used: nat, k: nat, packed: Data)
    requires Compressed(font) && used <= |was| && EntriesOk(inflate, font, es, was, used) && k < |es|
    requires Decoded(inflate, font, es[k].glyphIndex) == Some(packed)
    requires |packed| == PackedLength(font.glyph[es[k].glyphIndex]) && used + |packed| <= |was|
    requires now == was[..used] + packed + was[used + |packed|..]
    ensures EntriesOk(inflate, font, es[k := es[k].(bufferOffset := Some(used))], now, used + |packed|)
  {
    var r := es[k := es[k].(bufferOffset := Some(used))];
    assert now[used..used + |packed|] == packed;
    forall n | 0 <= n < |r| && n != k ensures EntryOk(inflate, font, r[n], now, used + |packed|) {
      EntryStill(inflate, font, es[n], was, now, used, used + |packed|);
    }
  }

  lemma {:induction false} SameSlice(was: Data, now: Data, at: nat, size: nat, used: nat)
    requires at + size <= used <= |was| && used <= |now| && now[..used] == was[..used]
    ensures now[at..at + size] == was[at..at + size]
  {
    assert now[at..at + size] == now[..used][at..at + size] == was[..used][at..at + size];
  }

  /** What was extracted lies below the part written since. */
  lemma {:induction false} EntryStill(inflate: Inflate, font: EpdFontData, e: PageGlyphEntry, was: Data, now: Data,
                                      used: nat, w: nat)
    requires Compressed(font) && used <= |was| && EntryOk(inflate, font, e, was, used)
    requires used <= w <= |now| && now[..used] == was[..used]
    ensures EntryOk(inflate, font, e, now, w)
  {
    if e.bufferOffset.Some? {
      var at, size := e.bufferOffset.value, PackedLength(font.glyph[e.glyphIndex]);
      SameSlice(was, now, at, size, used);
    }
  }

  /** Nothing of group `g` is left to extract. */
  ghost predicate Drained(font: EpdFontData, es: seq<PageGlyphEntry>, g: nat, n: nat)
    requires Grouped(font) && n <= |es| && forall k :: 0 <= k < |es| ==> es[k].glyphIndex < |font.glyph|
  {
    forall k :: 0 <= k < n && GroupOf(font, es[k].glyphIndex) == g ==> es[k].bufferOffset.Some?
  }

  lemma {:induction false} StepOk(font: EpdFontData, es: seq<PageGlyphEntry>, r: seq<PageGlyphEntry>, k: nat, g: nat,
                                  used: nat)
    requires InTable(font, es) && InTable(font, r) && OnlyExtracted(r, es) && k < |r| && r[k].bufferOffset.None?
    requires Drained(font, r, g, k) && AlignedBelow(font, es, [g], |font.glyph|) && GroupOf(font, r[k].glyphIndex) == g
    ensures AlignedRight(font, r[k])
    ensures var next := r[k := r[k].(bufferOffset := Some(used))];
            OnlyExtracted(next, es) && InTable(font, next) && Drained(font, next, g, k + 1)
  {
    assert r[k] == es[k];
  }

  /** How far the extraction of a group has come: the first `k` entries of the group are done. */
  ghost predicate GroupProgress(inflate: Inflate, font: EpdFontData, g: nat, es: seq<PageGlyphEntry>,
                                r: seq<PageGlyphEntry>, buffer: Data, used: nat, k: nat)
  {
    && Progress(inflate, font, r, buffer, used) && OnlyExtracted(r, es) && InTable(font, r)
    && k <= |r| && Drained(font, r, g, k)
  }

  /** Extracts the entry at `k` if it belongs to the group and is still to be done. */
  method ExtractAt(inflate: Inflate, font: EpdFontData, g: nat, inflated: Data, ghost es: seq<PageGlyphEntry>,
                   was: seq<PageGlyphEntry>, buffer: array<Byte>, used: nat, k: nat)
    returns (r: seq<PageGlyphEntry>, w: nat)
    requires InTable(font, es) && GroupProgress(inflate, font, g, es, was, buffer[..], used, k) && k < |was|
    requires g < |font.groups|
    requires Inflated(inflate, font, g) == Some(inflated) && AlignedBelow(font, es, [g], |font.glyph|)
    modifies buffer
    ensures |r| == |was| && GroupProgress(inflate, font, g, es, r, buffer[..], w, k + 1)
  {
    r, w := was, used;
    if was[k].bufferOffset.None? {
      var group := GetGroupIndex(font, was[k].glyphIndex);
      if group == g {
        StepOk(font, es, was, k, g, used);
        r, w := ExtractOne(inflate, font, inflated, was, k, buffer, used);
      }
    }
  }

  /** Extracts every needed glyph of an inflated group. */
  method ExtractGroup(inflate: Inflate, font: EpdFontData, g: nat, inflated: Data, es: seq<PageGlyphEntry>,
                      buffer: array<Byte>, used: nat) returns (r: seq<PageGlyphEntry>, w: nat)
    requires Progress(inflate, font, es, buffer[..], used) && InTable(font, es) && g < |font.groups|
    requires Inflated(inflate, font, g) == Some(inflated) && AlignedBelow(font, es, [g], |font.glyph|)
    modifies buffer
    ensures Progress(inflate, font, r, buffer[..], w) && OnlyExtracted(r, es) && InTable(font, r)
    ensures Drained(font, r, g, |r|)
  {
    r, w := es, used;
    var k: nat := 0;
    while k < |r|
      invariant k <= |r| == |es| && GroupProgress(inflate, font, g, es, r, buffer[..], w, k)
    {
      r, w := ExtractAt(inflate, font, g, inflated, es, r, buffer, w, k);
      k := k + 1;
    }
  }

  // --- From group to group ---

  lemma {:induction false} StillAligned(font: EpdFontData, es: seq<PageGlyphEntry>, r: seq<PageGlyphEntry>,
                                        groups: seq<nat>, p: nat)
    requires InTable(font, es) && InTable(font, r) && OnlyExtracted(r, es) && p < |groups|
    requires AlignedBelow(font, es, groups, |font.glyph|)
    ensures AlignedBelow(font, r, [groups[p]], |font.glyph|)
  {
    forall k | 0 <= k < |r| && GroupOf(font, r[k].glyphIndex) == groups[p] ensures AlignedRight(font, r[k]) {
      assert AlignedRight(font, es[k]);
    }
  }

  lemma {:induction false} ExtractedSince(r: seq<PageGlyphEntry>, was: seq<PageGlyphEntry>, es: seq<PageGlyphEntry>)
    requires OnlyExtracted(r, was) && OnlyExtracted(was, es)
    ensures OnlyExtracted(r, es)
  {
  }

  lemma {:induction false} EntriesWiden(inflate: Inflate, font: EpdFontData, es: seq<PageGlyphEntry>, buffer: Data,
                                        used: nat)
    requires Progress(inflate, font, es, buffer, used)
    ensures EntriesOk(inflate, font, es, buffer, |buffer|)
  {
    forall k | 0 <= k < |es| ensures EntryOk(inflate, font, es[k], buffer, |buffer|) {
      EntryStill(inflate, font, es[k], buffer, buffer, used, |buffer|);
    }
  }

  lemma {:induction false} AlignedPending(font: EpdFontData, es: seq<PageGlyphEntry>, was: seq<PageGlyphEntry>)
    requires OnlyAligned(es, was)
    ensures Pending(font, es) == Pending(font, was)
  {
    if es != [] {
      AlignedPending(font, es[..|es| - 1], was[..|was| - 1]);
    }
  }

  // --- The finished slot ---

  predicate Extracted(es: seq<PageGlyphEntry>, i: nat) {
    exists k :: 0 <= k < |es| && es[k].glyphIndex == i && es[k].bufferOffset.Some?
  }

  predicate AllIn(es: seq<PageGlyphEntry>, needed: seq<nat>) {
    forall i :: i in needed ==> Extracted(es, i)
  }

  ghost predicate AllDrained(font: EpdFontData, es: seq<PageGlyphEntry>, groups: seq<nat>, n: nat)
    requires InTable(font, es) && n <= |groups|
  {
    forall q :: 0 <= q < n ==> Drained(font, es, groups[q], |es|)
  }

  lemma {:induction false} StillDrained(font: EpdFontData, was: seq<PageGlyphEntry>, r: seq<PageGlyphEntry>,
                                        groups: seq<nat>, p: nat, all: bool)
    requires InTable(font, was) && InTable(font, r) && OnlyExtracted(r, was) && p < |groups|
    requires (all ==> AllDrained(font, was, groups, p)) && Drained(font, r, groups[p], |r|)
    ensures all ==> AllDrained(font, r, groups, p + 1)
  {
    if all {
      forall q | 0 <= q < p ensures Drained(font, r, groups[q], |r|) {
        assert Drained(font, was, groups[q], |was|);
      }
    }
  }

  lemma {:induction false} AllExtracted(font: EpdFontData, needed: seq<nat>, groups: seq<nat>, es: seq<PageGlyphEntry>)
    requires InTable(font, es) && InFont(font, needed) && GroupsOf(font, needed, groups) && |groups| < MAX_PAGE_GROUPS
    requires HasExactly(es, needed) && AllDrained(font, es, groups, |groups|)
    ensures AllIn(es, needed)
  {
    forall i | i in needed ensures Extracted(es, i) {
      assert HasEntry(es, i);
      var k :| 0 <= k < |es| && es[k].glyphIndex == i;
      var n :| 0 <= n < |needed| && needed[n] == i;
      var q :| 0 <= q < |groups| && groups[q] == GroupOf(font, i);
      assert Drained(font, es, groups[q], |es|);
    }
  }

  lemma {:induction false} StillHas(es: seq<PageGlyphEntry>, aligned: seq<PageGlyphEntry>, r: seq<PageGlyphEntry>,
                                    needed: seq<nat>)
    requires HasExactly(es, needed) && OnlyAligned(aligned, es) && OnlyExtracted(r, aligned)
    ensures HasExactly(r, needed)
  {
    forall k | 0 <= k < |r| ensures r[k].glyphIndex == es[k].glyphIndex {
      assert aligned[k] == es[k].(alignedOffset := aligned[k].alignedOffset);
    }
    forall i | i in needed ensures HasEntry(r, i) {
      assert HasEntry(es, i);
    }
  }
}
