/** Reading a page's glyph records and bitmaps from the card in file order (SdCardFont::prewarmStyle). */
module MiniRead {
  import opened Bytes
  import opened Card
  import opened FontData
  import opened Intervals
  import opened MiniLayout
  import opened SdStyle
  import opened Sorting

  // --- Reading in another order ---

  function Places(n: nat): (r: seq<nat>)
    ensures |r| == n
  {
    seq(n, k requires 0 <= k < n => k)
  }

  /** Every place once, in any order. */
  ghost predicate OrderOf(order: seq<nat>, n: nat) {
    && |order| == n && Distinct(order) && (forall a :: 0 <= a < n ==> order[a] < n)
    && forall k :: 0 <= k < n ==> Listed(order, k)
  }

  predicate Listed(order: seq<nat>, k: nat) {
    k in order
  }

  lemma {:induction false} SortedPlaces(n: nat, key: nat -> int)
    ensures OrderOf(SortBy(Places(n), key), n)
  {
    var order := SortBy(Places(n), key);
    SortByOk(Places(n), key);
    SortByDistinct(Places(n), key, (k: nat) => k);
    forall a | 0 <= a < n ensures order[a] < n {
      SortByHas<nat>(Places(n), key, order[a]);
    }
    forall k | 0 <= k < n ensures Listed(order, k) {
      assert Places(n)[k] == k;
      SortByHas<nat>(Places(n), key, k);
    }
  }

  function LengthAt(glyphs: seq<EpdGlyph>, k: nat): nat {
    if k < |glyphs| then glyphs[k].dataLength else 0
  }

  function LengthOf(glyphs: seq<EpdGlyph>, order: seq<nat>): nat {
    if order == [] then 0 else LengthOf(glyphs, order[..|order| - 1]) + LengthAt(glyphs, order[|order| - 1])
  }

  lemma {:induction false} LengthInserted(glyphs: seq<EpdGlyph>, s: seq<nat>, x: nat, key: nat -> int)
    ensures LengthOf(glyphs, InsertBy(s, x, key)) == LengthOf(glyphs, s) + LengthAt(glyphs, x)
  {
    if s == [] || key(s[|s| - 1]) <= key(x) {
      assert (s + [x])[..|s|] == s;
    } else {
      LengthInserted(glyphs, s[..|s| - 1], x, key);
      var r := InsertBy(s[..|s| - 1], x, key);
      assert (r + [s[|s| - 1]])[..|r|] == r;
    }
  }

  lemma {:induction false} LengthSorted(glyphs: seq<EpdGlyph>, s: seq<nat>, key: nat -> int)
    ensures LengthOf(glyphs, SortBy(s, key)) == LengthOf(glyphs, s)
  {
    if s != [] {
      LengthSorted(glyphs, s[..|s| - 1], key);
      LengthInserted(glyphs, SortBy(s[..|s| - 1], key), s[|s| - 1], key);
    }
  }

  lemma {:induction false} LengthPrefix(glyphs: seq<EpdGlyph>, order: seq<nat>, i: nat, n: nat)
    requires i <= n <= |order|
    ensures LengthOf(glyphs, order[..i]) <= LengthOf(glyphs, order[..n])
    decreases n
  {
    if i < n {
      assert order[..n][..n - 1] == order[..n - 1];
      LengthPrefix(glyphs, order, i, n - 1);
    }
  }

  // --- Glyph records ---

  /** Glyph of a covered codepoint in the file; None if the file ends before it. */
  function FileEntry(style: StyleFile, cp: nat): Option<EpdGlyph> {
    var i := GlyphIndex(style, cp);
    if i.Some? && i.value < |style.glyphs| then Some(FileGlyph(style, i.value)) else None
  }

  /** Records are in codepoint order: that of a covered codepoint comes after those of all covered codepoints below. */
  lemma {:induction false} EntryIsRanked(style: StyleFile, glyphCount: nat, cp: nat)
    requires Layout(style.intervals, glyphCount)
    ensures FileEntry(style, cp) ==
            if Covered(style.intervals, cp) && Rank(style.intervals, cp) < |style.glyphs|
            then Some(FileGlyph(style, Rank(style.intervals, cp))) else None
  {
    LookupIsRank(style.intervals, glyphCount, cp);
  }

  /** The file ends before the record of a codepoint that its intervals cover. */
  ghost predicate Truncated(style: StyleFile, cps: seq<nat>) {
    exists i :: 0 <= i < |cps| && Missed(style, cps[i])
  }

  predicate Missed(style: StyleFile, cp: nat) {
    GlyphIndex(style, cp).Some? && FileEntry(style, cp).None?
  }

  function IndexAt(style: StyleFile, cps: seq<nat>, k: nat): int {
    if k < |cps| && GlyphIndex(style, cps[k]).Some? then GlyphIndex(style, cps[k]).value else 0
  }

  /** The places read so far hold their codepoints' entries. */
  ghost predicate GlyphsRead(style: StyleFile, cps: seq<nat>, glyphs: seq<EpdGlyph>, order: seq<nat>, n: nat) {
    && |glyphs| == |cps| && OrderOf(order, |cps|) && n <= |order|
    && forall a :: 0 <= a < n ==> FileEntry(style, cps[order[a]]) == Some(glyphs[order[a]])
  }

  lemma {:induction false} AllGlyphsRead(style: StyleFile, cps: seq<nat>, glyphs: seq<EpdGlyph>, order: seq<nat>)
    requires GlyphsRead(style, cps, glyphs, order, |order|)
    ensures forall k :: 0 <= k < |cps| ==> FileEntry(style, cps[k]) == Some(glyphs[k])
  {
    forall k | 0 <= k < |cps| ensures FileEntry(style, cps[k]) == Some(glyphs[k]) {
      assert Listed(order, k);
    }
  }

  /** Reads the records in glyph order; a seek is skipped when the file already stands at the next record. */
  method ReadGlyphs(card: Device, style: StyleFile, cps: seq<nat>) returns (glyphs: seq<EpdGlyph>, ok: bool)
    requires AllCovered(style, cps) && Ascending(style.intervals)
    modifies card`faults
    ensures card.faults >= old(card.faults) && (!ok ==> card.faults > old(card.faults) || Truncated(style, cps))
    ensures ok ==> |glyphs| == |cps| && forall k :: 0 <= k < |cps| ==> FileEntry(style, cps[k]) == Some(glyphs[k])
  {
    var order := SortBy(Places(|cps|), (k: nat) => IndexAt(style, cps, k));
    SortedPlaces(|cps|, (k: nat) => IndexAt(style, cps, k));
    glyphs, ok := seq(|cps|, _ => EMPTY_GLYPH), true;
    var lastReadIndex: Option<nat>, position: nat, i: nat := None, 0, 0;
    while i < |cps|
      invariant i <= |cps| && GlyphsRead(style, cps, glyphs, order, i)
      invariant (lastReadIndex.Some? ==> position == lastReadIndex.value + 1) && card.faults >= old(card.faults)
    {
      var place := order[i];
      var index := FindGlyphIndex(style.intervals, cps[place]);
      if lastReadIndex.None? || index.value != lastReadIndex.value + 1 {
        var seeks := card.Try();
        if !seeks { return glyphs, false; }
        position := index.value;
      }
      var readable := card.Try();
      if !readable || position >= |style.glyphs| {
        assert readable ==> Missed(style, cps[place]);
        return glyphs, false;
      }
      glyphs := glyphs[place := Checked(style, style.glyphs[position])];
      position := position + 1;
      lastReadIndex := index;
      i := i + 1;
    }
    AllGlyphsRead(style, cps, glyphs, order);
  }

  // --- Bitmaps ---

  /** The bitmap of a codepoint's glyph in the file. */
  function BitmapOf(style: StyleFile, cp: nat): Data {
    var i := GlyphIndex(style, cp);
    if i.Some? && i.value < |style.glyphs| then FileBitmap(style, i.value) else []
  }

  /** A glyph whose offset was rewritten to where its bitmap was put. */
  ghost predicate Rewritten(style: StyleFile, cp: nat, glyph: EpdGlyph, bitmap: Data, used: nat) {
    && FileEntry(style, cp).Some? && glyph == FileEntry(style, cp).value.(dataOffset := glyph.dataOffset)
    && glyph.dataOffset + glyph.dataLength <= used <= |bitmap|
    && bitmap[glyph.dataOffset..glyph.dataOffset + glyph.dataLength] == BitmapOf(style, cp)
  }

  /** The places in `order` before `n` are rewritten, the others still as read. */
  ghost predicate BitmapsRead(style: StyleFile, cps: seq<nat>, read: seq<EpdGlyph>, glyphs: seq<EpdGlyph>, bitmap: Data,
                              order: seq<nat>, n: nat, used: nat)
  {
    && |read| == |glyphs| == |cps| && OrderOf(order, |cps|) && n <= |order| && used <= |bitmap|
    && (forall k :: 0 <= k < |cps| ==> FileEntry(style, cps[k]) == Some(read[k]))
    && (forall a :: 0 <= a < n ==> Rewritten(style, cps[order[a]], glyphs[order[a]], bitmap, used))
    && forall a :: n <= a < |order| ==> glyphs[order[a]] == read[order[a]]
  }

  lemma {:induction false} RewrittenStill(style: StyleFile, cp: nat, glyph: EpdGlyph, was: Data, used: nat, now: Data,
                                          more: nat)
    requires Rewritten(style, cp, glyph, was, used) && used <= more <= |now| && now[..used] == was[..used]
    ensures Rewritten(style, cp, glyph, now, more)
  {
    SameSlice(now, was, used, glyph.dataOffset, glyph.dataOffset + glyph.dataLength);
  }

  lemma {:induction false} SameSlice(a: Data, b: Data, n: nat, lo: nat, hi: nat)
    requires lo <= hi <= n <= |a| && n <= |b| && a[..n] == b[..n]
    ensures a[lo..hi] == b[lo..hi]
  {
    assert a[..n][lo..hi] == a[lo..hi];
    assert b[..n][lo..hi] == b[lo..hi];
  }

  /** One more bitmap, read behind the used part. */
  lemma {:induction false} NextBitmap(style: StyleFile, cps: seq<nat>, read: seq<EpdGlyph>, glyphs: seq<EpdGlyph>,
                                      was: Data, order: seq<nat>, n: nat, used: nat, now: Data)
    requires BitmapsRead(style, cps, read, glyphs, was, order, n, used) && n < |order|
    requires var data := BitmapOf(style, cps[order[n]]);
             used + |data| <= |was| && now == was[..used] + data + was[used + |data|..]
    ensures |BitmapOf(style, cps[order[n]])| == glyphs[order[n]].dataLength
    ensures BitmapsRead(style, cps, read, glyphs[order[n] := glyphs[order[n]].(dataOffset := used)], now, order, n + 1,
                        used + glyphs[order[n]].dataLength)
  {
    var k, data := order[n], BitmapOf(style, cps[order[n]]);
    var after, more := glyphs[k := glyphs[k].(dataOffset := used)], used + |data|;
    assert FileEntry(style, cps[k]) == Some(read[k]) && glyphs[k] == read[k];
    assert now[used..more] == data;
    assert now[..used] == was[..used];
    forall a | 0 <= a < n ensures Rewritten(style, cps[order[a]], after[order[a]], now, more) {
      assert order[a] != order[n];
      RewrittenStill(style, cps[order[a]], glyphs[order[a]], was, used, now, more);
    }
  }

  /** The next place in order still has its entry as read, and there is room for its bitmap. */
  lemma {:induction false} NextUp(style: StyleFile, cps: seq<nat>, read: seq<EpdGlyph>, glyphs: seq<EpdGlyph>,
                                  bitmap: Data, order: seq<nat>, n: nat, used: nat)
    requires BitmapsRead(style, cps, read, glyphs, bitmap, order, n, used) && n < |order|
    ensures order[n] < |cps| && FileEntry(style, cps[order[n]]) == Some(glyphs[order[n]])
    ensures LengthOf(read, order[..n + 1]) == LengthOf(read, order[..n]) + glyphs[order[n]].dataLength
    ensures LengthOf(read, order[..n + 1]) <= LengthOf(read, order)
  {
    assert glyphs[order[n]] == read[order[n]];
    assert order[..n + 1][..n] == order[..n] && order[..|order|] == order;
    LengthPrefix(read, order, n + 1, |order|);
  }

  lemma {:induction false} AllRewritten(style: StyleFile, cps: seq<nat>, read: seq<EpdGlyph>, glyphs: seq<EpdGlyph>,
                                        bitmap: Data, order: seq<nat>, used: nat)
    requires BitmapsRead(style, cps, read, glyphs, bitmap, order, |order|, used)
    ensures forall k :: 0 <= k < |cps| ==> Rewritten(style, cps[k], glyphs[k], bitmap, |bitmap|)
  {
    forall k | 0 <= k < |cps| ensures Rewritten(style, cps[k], glyphs[k], bitmap, |bitmap|) {
      assert Listed(order, k);
      var a :| 0 <= a < |order| && order[a] == k;
      RewrittenStill(style, cps[k], glyphs[k], bitmap, used, bitmap, |bitmap|);
    }
  }

  /** Reads one bitmap to `at`; a seek is skipped when the file already stands at its start. */
  method ReadOne(card: Device, style: StyleFile, ghost cp: nat, glyph: EpdGlyph, bitmap: Data, at: nat, position: nat,
                 lastBitmapEnd: Option<nat>)
    returns (r: Data, p: nat, e: Option<nat>, ok: bool)
    requires FileEntry(style, cp) == Some(glyph) && at + glyph.dataLength <= |bitmap|
    requires lastBitmapEnd.Some? ==> position == lastBitmapEnd.value
    modifies card`faults
    ensures card.faults >= old(card.faults) && (!ok ==> card.faults > old(card.faults))
    ensures |r| == |bitmap| && (e.Some? ==> p == e.value)
    ensures ok ==> |BitmapOf(style, cp)| == glyph.dataLength
    ensures ok ==> r == bitmap[..at] + BitmapOf(style, cp) + bitmap[at + |BitmapOf(style, cp)|..]
  {
    FileEntryBitmap(style, cp, glyph);
    r, p, e, ok := bitmap, position, lastBitmapEnd, true;
    if glyph.dataLength == 0 { return; }
    var fileOff := style.bitmapFileOffset + glyph.dataOffset;
    if lastBitmapEnd != Some(fileOff) {
      var seeks := card.Try();
      if !seeks { return r, p, e, false; }
      p := fileOff;
    }
    var readable := card.Try();
    if !readable { return r, p, None, false; }
    r := bitmap[..at] + style.bytes[p..p + glyph.dataLength] + bitmap[at + glyph.dataLength..];
    p := p + glyph.dataLength;
    e := Some(fileOff + glyph.dataLength);
  }

  /** Reads the next bitmap behind the used part of the arena. */
  method ReadNext(card: Device, style: StyleFile, ghost cps: seq<nat>, ghost read: seq<EpdGlyph>,
                  glyphs: seq<EpdGlyph>, bitmap: Data, order: seq<nat>, i: nat, used: nat, position: nat,
                  lastBitmapEnd: Option<nat>)
    returns (gs: seq<EpdGlyph>, r: Data, more: nat, p: nat, e: Option<nat>, ok: bool)
    requires i < |order| && BitmapsRead(style, cps, read, glyphs, bitmap, order, i, used)
    requires used == LengthOf(read, order[..i]) && LengthOf(read, order) <= |bitmap|
    requires lastBitmapEnd.Some? ==> position == lastBitmapEnd.value
    modifies card`faults
    ensures card.faults >= old(card.faults) && (!ok ==> card.faults > old(card.faults))
    ensures |r| == |bitmap| && (e.Some? ==> p == e.value)
    ensures ok ==> more == LengthOf(read, order[..i + 1]) && BitmapsRead(style, cps, read, gs, r, order, i + 1, more)
  {
    NextUp(style, cps, read, glyphs, bitmap, order, i, used);
    var k := order[i];
    gs, more := glyphs[k := glyphs[k].(dataOffset := used)], used + glyphs[k].dataLength;
    r, p, e, ok := ReadOne(card, style, cps[k], glyphs[k], bitmap, used, position, lastBitmapEnd);
    if ok {
      NextBitmap(style, cps, read, glyphs, bitmap, order, i, used, r);
    }
  }

  /** Reads the bitmaps in file order into the arena and points each glyph at its own. */
  method ReadBitmaps(card: Device, style: StyleFile, cps: seq<nat>, read: seq<EpdGlyph>, arena: Data)
    returns (glyphs: seq<EpdGlyph>, bitmap: Data, ok: bool)
    requires |read| == |cps| && forall k :: 0 <= k < |cps| ==> FileEntry(style, cps[k]) == Some(read[k])
    requires LengthOf(read, Places(|read|)) <= |arena|
    modifies card`faults
    ensures card.faults >= old(card.faults) && (!ok ==> card.faults > old(card.faults))
    ensures |bitmap| == |arena|
    ensures ok ==> |glyphs| == |cps| && forall k :: 0 <= k < |cps| ==>
      Rewritten(style, cps[k], glyphs[k], bitmap, |bitmap|)
  {
    var key := (k: nat) => if k < |read| then read[k].dataOffset else 0;
    var order := SortBy(Places(|read|), key);
    SortedPlaces(|read|, key);
    LengthSorted(read, Places(|read|), key);
    glyphs, bitmap, ok := read, arena, true;
    var miniBitmapOffset: nat, lastBitmapEnd: Option<nat>, position: nat, i: nat := 0, None, 0, 0;
    while i < |read|
      invariant i <= |read| && |bitmap| == |arena| && card.faults >= old(card.faults)
      invariant BitmapsRead(style, cps, read, glyphs, bitmap, order, i, miniBitmapOffset)
      invariant miniBitmapOffset == LengthOf(read, order[..i])
      invariant lastBitmapEnd.Some? ==> position == lastBitmapEnd.value
    {
      glyphs, bitmap, miniBitmapOffset, position, lastBitmapEnd, ok :=
        ReadNext(card, style, cps, read, glyphs, bitmap, order, i, miniBitmapOffset, position, lastBitmapEnd);
      if !ok { return; }
      i := i + 1;
    }
    AllRewritten(style, cps, read, glyphs, bitmap, order, miniBitmapOffset);
  }

  lemma {:induction false} FileEntryBitmap(style: StyleFile, cp: nat, glyph: EpdGlyph)
    requires FileEntry(style, cp) == Some(glyph)
    ensures |BitmapOf(style, cp)| == glyph.dataLength
    ensures glyph.dataLength > 0 ==>
      && style.bitmapFileOffset + glyph.dataOffset + glyph.dataLength <= |style.bytes|
      && var at := style.bitmapFileOffset + glyph.dataOffset;
         BitmapOf(style, cp) == style.bytes[at..at + glyph.dataLength]
  {
  }
}
