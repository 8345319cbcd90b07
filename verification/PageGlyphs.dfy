/** The glyphs a page needs, gathered and extracted ahead of drawing (FontDecompressor::prewarmCache). */
module PageGlyphs {
  import opened Bytes
  import opened Intervals
  import opened Repacking
  import opened FontData

  const MAX_PAGE_GLYPHS := 512
  const MAX_PAGE_SLOTS := 8
  const MAX_PAGE_GROUPS := 128

  /** `bufferOffset` is None until the glyph is extracted. */
  datatype PageGlyphEntry = PageGlyphEntry(glyphIndex: nat, bufferOffset: Option<nat>, alignedOffset: nat)

  datatype PageSlot = PageSlot(fontData: EpdFontData, glyphs: seq<PageGlyphEntry>, buffer: Data)

  /** A font whose groups and intervals both fit its glyphs. */
  ghost predicate Indexed(font: EpdFontData) {
    Compressed(font) && Layout(font.intervals, |font.glyph|)
  }

  function GlyphIndex(font: EpdFontData, cp: nat): (i: Option<nat>)
    requires Indexed(font)
    ensures i.Some? ==> i.value < |font.glyph|
  {
    LookupIsRank(font.intervals, |font.glyph|, cp);
    Lookup(font.intervals, cp)
  }

  // --- Step 1: the glyphs needed ---

  function Added(needed: seq<nat>, i: nat): seq<nat> {
    if i in needed || |needed| >= MAX_PAGE_GLYPHS then needed else needed + [i]
  }

  function Collected(font: EpdFontData, text: seq<nat>): seq<nat>
    requires Indexed(font)
  {
    if text == [] then [] else
      var before := Collected(font, text[..|text| - 1]);
      match GlyphIndex(font, text[|text| - 1])
      case None => before
      case Some(i) => Added(before, i)
  }

  predicate BothIn(needed: seq<nat>, left: Option<nat>, right: Option<nat>) {
    left.Some? && right.Some? && left.value in needed && right.value in needed
  }

  /** The outputs of the first `n` ligatures, as far as their inputs are needed when their turn comes. */
  function WithLigatures(font: EpdFontData, needed: seq<nat>, n: nat): seq<nat>
    requires Indexed(font) && n <= |font.ligaturePairs|
  {
    if n == 0 then needed else
      var before, pair := WithLigatures(font, needed, n - 1), font.ligaturePairs[n - 1];
      var out := GlyphIndex(font, pair.ligatureCp);
      if BothIn(before, GlyphIndex(font, pair.left), GlyphIndex(font, pair.right)) && out.Some?
      then Added(before, out.value) else before
  }

  function Needed(font: EpdFontData, text: seq<nat>): seq<nat>
    requires Indexed(font)
  {
    WithLigatures(font, Collected(font, text), |font.ligaturePairs|)
  }

  predicate Distinct(s: seq<nat>) {
    forall i, j :: 0 <= i < j < |s| ==> s[i] != s[j]
  }

  predicate InFont(font: EpdFontData, needed: seq<nat>) {
    forall k :: 0 <= k < |needed| ==> needed[k] < |font.glyph|
  }

  /** No glyph twice, none that the font lacks, and no more than fit. */
  ghost predicate PageFul(font: EpdFontData, needed: seq<nat>) {
    Distinct(needed) && |needed| <= MAX_PAGE_GLYPHS && InFont(font, needed)
  }

  lemma {:induction false} CollectedAll(font: EpdFontData, text: seq<nat>, cp: nat)
    requires Indexed(font)
    ensures PageFul(font, Collected(font, text))
    ensures cp in text && GlyphIndex(font, cp).Some? ==>
      GlyphIndex(font, cp).value in Collected(font, text) || |Collected(font, text)| == MAX_PAGE_GLYPHS
  {
    if text != [] {
      CollectedAll(font, text[..|text| - 1], cp);
    }
  }

  lemma {:induction false} LigaturesAdded(font: EpdFontData, needed: seq<nat>, n: nat, k: nat)
    requires Indexed(font) && n <= |font.ligaturePairs| && PageFul(font, needed)
    ensures PageFul(font, WithLigatures(font, needed, n)) && needed <= WithLigatures(font, needed, n)
    ensures k < n && BothIn(needed, GlyphIndex(font, font.ligaturePairs[k].left),
                            GlyphIndex(font, font.ligaturePairs[k].right))
            && GlyphIndex(font, font.ligaturePairs[k].ligatureCp).Some? ==>
              || GlyphIndex(font, font.ligaturePairs[k].ligatureCp).value in WithLigatures(font, needed, n)
              || |WithLigatures(font, needed, n)| == MAX_PAGE_GLYPHS
  {
    if n > 0 {
      LigaturesAdded(font, needed, n - 1, k);
    }
  }

  predicate HasAll(font: EpdFontData, pair: EpdLigaturePair)
    requires Indexed(font)
  {
    GlyphIndex(font, pair.left).Some? && GlyphIndex(font, pair.right).Some? && GlyphIndex(font, pair.ligatureCp).Some?
  }

  /** Up to the cap a page gets every glyph of its text, and the ligature of every pair of them. */
  lemma {:induction false} NeededAll(font: EpdFontData, text: seq<nat>, cp: nat, k: nat)
    requires Indexed(font) && cp in text && k < |font.ligaturePairs|
    ensures var needed, pair := Needed(font, text), font.ligaturePairs[k];
            && PageFul(font, needed)
            && (|needed| < MAX_PAGE_GLYPHS ==>
                  && (GlyphIndex(font, cp).Some? ==> GlyphIndex(font, cp).value in needed)
                  && (pair.left in text && pair.right in text && HasAll(font, pair) ==>
                        GlyphIndex(font, pair.ligatureCp).value in needed))
  {
    var pair := font.ligaturePairs[k];
    CollectedAll(font, text, cp);
    CollectedAll(font, text, pair.left);
    CollectedAll(font, text, pair.right);
    LigaturesAdded(font, Collected(font, text), |font.ligaturePairs|, k);
  }

  predicate Below(needed: seq<nat>, n: int) {
    forall k :: 0 <= k < |needed| ==> needed[k] < n
  }

  /** The needed glyphs are among those the intervals number. */
  lemma {:induction false} NeededBelow(font: EpdFontData, text: seq<nat>, n: nat)
    requires Indexed(font) && n <= |font.ligaturePairs|
    ensures Below(WithLigatures(font, Collected(font, text), n), Start(font.intervals, |font.intervals|))
    decreases n, |text|
  {
    StartGrows(font.intervals, 0, |font.intervals|);
    if n > 0 {
      NeededBelow(font, text, n - 1);
      LookupIsRank(font.intervals, Start(font.intervals, |font.intervals|), font.ligaturePairs[n - 1].ligatureCp);
    } else if text != [] {
      NeededBelow(font, text[..|text| - 1], 0);
      LookupIsRank(font.intervals, Start(font.intervals, |font.intervals|), text[|text| - 1]);
    }
  }

  method Contains(s: seq<nat>, x: nat) returns (found: bool)
    ensures found == (x in s)
  {
    var i: nat := 0;
    while i < |s|
      invariant i <= |s| && x !in s[..i]
    {
      if s[i] == x { return true; }
      i := i + 1;
    }
    return false;
  }

  method CollectGlyphs(font: EpdFontData, text: seq<nat>) returns (needed: seq<nat>)
    requires Indexed(font)
    ensures needed == Collected(font, text)
  {
    needed := [];
    var p: nat := 0;
    while p < |text|
      invariant p <= |text| && needed == Collected(font, text[..p])
    {
      assert text[..p + 1][..p] == text[..p];
      var i := FindGlyphIndex(font.intervals, text[p]);
      if i.Some? {
        var found := Contains(needed, i.value);
        if !found && |needed| < MAX_PAGE_GLYPHS {
          needed := needed + [i.value];
        }
      }
      p := p + 1;
    }
    assert text[..p] == text;
  }

  method AddLigatures(font: EpdFontData, collected: seq<nat>) returns (needed: seq<nat>)
    requires Indexed(font)
    ensures needed == WithLigatures(font, collected, |font.ligaturePairs|)
  {
    needed := collected;
    var li: nat := 0;
    while li < |font.ligaturePairs| && |needed| < MAX_PAGE_GLYPHS
      invariant li <= |font.ligaturePairs| && needed == WithLigatures(font, collected, li)
    {
      var pair := font.ligaturePairs[li];
      var left := FindGlyphIndex(font.intervals, pair.left);
      var right := FindGlyphIndex(font.intervals, pair.right);
      if left.Some? && right.Some? {
        var hasLeft := Contains(needed, left.value);
        var hasRight := Contains(needed, right.value);
        if hasLeft && hasRight {
          var out := FindGlyphIndex(font.intervals, pair.ligatureCp);
          if out.Some? {
            var found := Contains(needed, out.value);
            if !found {
              needed := needed + [out.value];
            }
          }
        }
      }
      li := li + 1;
    }
    FullStays(font, collected, li, |font.ligaturePairs|);
  }

  /** Once the cap is reached the remaining ligatures add nothing. */
  lemma {:induction false} FullStays(font: EpdFontData, needed: seq<nat>, k: nat, n: nat)
    requires Indexed(font) && k <= n <= |font.ligaturePairs|
    requires k == n || |WithLigatures(font, needed, k)| >= MAX_PAGE_GLYPHS
    ensures WithLigatures(font, needed, n) == WithLigatures(font, needed, k)
    decreases n
  {
    if k < n {
      FullStays(font, needed, k, n - 1);
    }
  }

  // --- Step 2: their groups and their size ---

  predicate InGroups(font: EpdFontData, groups: seq<nat>) {
    forall q :: 0 <= q < |groups| ==> groups[q] < |font.groups|
  }

  ghost predicate GroupsOf(font: EpdFontData, needed: seq<nat>, groups: seq<nat>)
    requires Grouped(font) && InFont(font, needed)
  {
    && Distinct(groups) && |groups| <= MAX_PAGE_GROUPS && InGroups(font, groups)
    && (|groups| < MAX_PAGE_GROUPS ==> forall k :: 0 <= k < |needed| ==> GroupOf(font, needed[k]) in groups)
  }

  method GetGroupIndex(font: EpdFontData, i: nat) returns (g: nat)
    requires Grouped(font) && i < |font.glyph|
    ensures g == GroupOf(font, i)
  {
    if font.glyphToGroup.Some? { return font.glyphToGroup.value[i]; }
    g := 0;
    while g < |font.groups|
      invariant g <= |font.groups| && RangeOf(font.groups, i, 0) == RangeOf(font.groups, i, g)
    {
      if font.groups[g].firstGlyphIndex <= i && i < font.groups[g].firstGlyphIndex + font.groups[g].glyphCount {
        return;
      }
      g := g + 1;
    }
  }

  function GroupsNeeded(font: EpdFontData, needed: seq<nat>): (groups: seq<nat>)
    requires Grouped(font) && InFont(font, needed)
    ensures GroupsOf(font, needed, groups)
  {
    if needed == [] then [] else
      var before, g := GroupsNeeded(font, needed[..|needed| - 1]), GroupOf(font, needed[|needed| - 1]);
      if g in before || |before| >= MAX_PAGE_GROUPS then before else before + [g]
  }

  method CollectGroups(font: EpdFontData, needed: seq<nat>) returns (groups: seq<nat>, totalBytes: nat)
    requires Grouped(font) && InFont(font, needed)
    ensures groups == GroupsNeeded(font, needed)
    ensures totalBytes == Pending(font, Fresh(needed))
  {
    groups, totalBytes := [], 0;
    var k: nat := 0;
    while k < |needed|
      invariant k <= |needed| && groups == GroupsNeeded(font, needed[..k])
      invariant totalBytes == Pending(font, Fresh(needed[..k]))
    {
      totalBytes := totalBytes + font.glyph[needed[k]].dataLength;
      NextNeeded(font, needed, k);
      var g := GetGroupIndex(font, needed[k]);
      var found := Contains(groups, g);
      if !found && |groups| < MAX_PAGE_GROUPS {
        groups := groups + [g];
      }
      k := k + 1;
    }
    assert needed[..k] == needed;
  }

  lemma {:induction false} NextNeeded(font: EpdFontData, needed: seq<nat>, k: nat)
    requires Grouped(font) && InFont(font, needed) && k < |needed|
    ensures Pending(font, Fresh(needed[..k + 1]))
         == Pending(font, Fresh(needed[..k])) + font.glyph[needed[k]].dataLength
    ensures var before, g := GroupsNeeded(font, needed[..k]), GroupOf(font, needed[k]);
            GroupsNeeded(font, needed[..k + 1])
            == if g in before || |before| >= MAX_PAGE_GROUPS then before else before + [g]
  {
    assert Fresh(needed[..k + 1])[..k] == Fresh(needed[..k]) && needed[..k + 1][..k] == needed[..k];
  }

  // --- Step 3: the lookup table ---

  function Fresh(needed: seq<nat>): (es: seq<PageGlyphEntry>)
    ensures |es| == |needed|
  {
    seq(|needed|, k requires 0 <= k < |needed| => PageGlyphEntry(needed[k], None, 0))
  }

  /** Bytes that the glyphs not extracted yet still need. */
  function Pending(font: EpdFontData, es: seq<PageGlyphEntry>): nat {
    if es == [] then 0 else Pending(font, es[..|es| - 1]) + PendingOf(font, es[|es| - 1])
  }

  function PendingOf(font: EpdFontData, e: PageGlyphEntry): nat {
    if e.bufferOffset.None? && e.glyphIndex < |font.glyph| then font.glyph[e.glyphIndex].dataLength else 0
  }

  lemma {:induction false} PendingSplit(font: EpdFontData, a: seq<PageGlyphEntry>, b: seq<PageGlyphEntry>)
    ensures Pending(font, a + b) == Pending(font, a) + Pending(font, b)
  {
    if b == [] {
      assert a + b == a;
    } else {
      PendingSplit(font, a, b[..|b| - 1]);
      assert (a + b)[..|a + b| - 1] == a + b[..|b| - 1];
    }
  }

  predicate Sorted(es: seq<PageGlyphEntry>) {
    forall i, j :: 0 <= i < j < |es| ==> es[i].glyphIndex < es[j].glyphIndex
  }

  /** The table moved around: its last entry went in at `k`. */
  function Inserted(es: seq<PageGlyphEntry>, k: nat): seq<PageGlyphEntry>
    requires 0 < |es| && k < |es|
  {
    es[..k] + [es[|es| - 1]] + es[k..|es| - 1]
  }

  lemma {:induction false} InsertedKeeps(font: EpdFontData, es: seq<PageGlyphEntry>, k: nat)
    requires 0 < |es| && k < |es|
    ensures Pending(font, Inserted(es, k)) == Pending(font, es)
    ensures multiset(Inserted(es, k)) == multiset(es)
  {
    var key := [es[|es| - 1]];
    assert es == es[..k] + es[k..|es| - 1] + key;
    PendingSplit(font, es[..k] + es[k..|es| - 1], key);
    PendingSplit(font, es[..k], es[k..|es| - 1]);
    PendingSplit(font, es[..k] + key, es[k..|es| - 1]);
    PendingSplit(font, es[..k], key);
  }

  /** One round of the insertion sort: shifts the larger entries up and drops the last one in. */
  method InsertLast(es: seq<PageGlyphEntry>) returns (r: seq<PageGlyphEntry>, ghost k: nat)
    requires 0 < |es| && Sorted(es[..|es| - 1])
    requires forall i :: 0 <= i < |es| - 1 ==> es[i].glyphIndex != es[|es| - 1].glyphIndex
    ensures k < |es| && r == Inserted(es, k) && Sorted(r)
  {
    var n := |es| - 1;
    var key, j := es[n], n - 1;
    r := es;
    while j >= 0 && r[j].glyphIndex > key.glyphIndex
      invariant -1 <= j < n && Shifted(r, es, j) && forall i :: j < i < n ==> es[i].glyphIndex > key.glyphIndex
    {
      r := r[j + 1 := r[j]];
      j := j - 1;
    }
    r := r[j + 1 := key];
    k := j + 1;
    assert r == Inserted(es, k);
    InsertedSorted(es, k);
  }

  /** The entries past `j` are one place further up than they were. */
  ghost predicate Shifted(r: seq<PageGlyphEntry>, es: seq<PageGlyphEntry>, j: int) {
    && |r| == |es| && (forall i :: 0 <= i <= j < |es| ==> r[i] == es[i])
    && forall i :: 0 < j + 2 <= i < |es| ==> r[i] == es[i - 1]
  }

  lemma {:induction false} InsertedSorted(es: seq<PageGlyphEntry>, k: nat)
    requires 0 < |es| && k < |es| && Sorted(es[..|es| - 1])
    requires forall i :: 0 <= i < |es| - 1 ==> es[i].glyphIndex != es[|es| - 1].glyphIndex
    requires forall i :: k <= i < |es| - 1 ==> es[i].glyphIndex > es[|es| - 1].glyphIndex
    requires k > 0 ==> es[k - 1].glyphIndex <= es[|es| - 1].glyphIndex
    ensures Sorted(Inserted(es, k))
  {
    var r, n := Inserted(es, k), |es| - 1;
    assert forall i, j :: 0 <= i < j < n ==> es[i].glyphIndex < es[j].glyphIndex by {
      assert forall i :: 0 <= i < n ==> es[..n][i] == es[i];
    }
    forall i, j | 0 <= i < j < |r| ensures r[i].glyphIndex < r[j].glyphIndex {
      assert r[i] == if i < k then es[i] else if i == k then es[n] else es[i - 1];
      assert r[j] == if j < k then es[j] else if j == k then es[n] else es[j - 1];
    }
  }

  ghost predicate HasExactly(es: seq<PageGlyphEntry>, needed: seq<nat>) {
    && (forall k :: 0 <= k < |es| ==> es[k].glyphIndex in needed)
    && forall i :: i in needed ==> HasEntry(es, i)
  }

  ghost predicate HasEntry(es: seq<PageGlyphEntry>, i: nat) {
    exists k :: 0 <= k < |es| && es[k].glyphIndex == i
  }

  predicate NothingExtracted(es: seq<PageGlyphEntry>) {
    forall k :: 0 <= k < |es| ==> es[k].bufferOffset.None?
  }

  /** Sorting keeps what the table holds. */
  lemma {:induction false} SortedHas(font: EpdFontData, needed: seq<nat>, es: seq<PageGlyphEntry>)
    requires SortedFrom(font, es, Fresh(needed))
    ensures HasExactly(es, needed) && NothingExtracted(es)
  {
    forall k | 0 <= k < |es| ensures es[k].glyphIndex in needed && es[k].bufferOffset.None? {
      assert es[k] in multiset(es);
      assert es[k] in multiset(Fresh(needed));
    }
    forall i | i in needed ensures HasEntry(es, i) {
      var k :| 0 <= k < |needed| && needed[k] == i;
      assert Fresh(needed)[k] in multiset(Fresh(needed));
      assert Fresh(needed)[k] in multiset(es);
    }
  }

  /** The same entries in order. */
  ghost predicate SortedFrom(font: EpdFontData, es: seq<PageGlyphEntry>, was: seq<PageGlyphEntry>) {
    Sorted(es) && multiset(es) == multiset(was) && Pending(font, es) == Pending(font, was)
  }

  lemma {:induction false} NextDiffers(r: seq<PageGlyphEntry>, es: seq<PageGlyphEntry>, i: nat)
    requires i < |es| && multiset(r) == multiset(es[..i])
    requires forall i, j :: 0 <= i < j < |es| ==> es[i].glyphIndex != es[j].glyphIndex
    ensures forall k :: 0 <= k < |r| ==> r[k].glyphIndex != es[i].glyphIndex
  {
    forall k | 0 <= k < |r| ensures r[k].glyphIndex != es[i].glyphIndex {
      assert r[k] in multiset(r);
      assert r[k] in multiset(es[..i]);
    }
  }

  lemma {:induction false} StillSorted(font: EpdFontData, r: seq<PageGlyphEntry>, shown: seq<PageGlyphEntry>, k: nat,
                                       es: seq<PageGlyphEntry>, i: nat)
    requires i < |es| && |shown| == i + 1 && shown[i] == es[i] && SortedFrom(font, shown[..i], es[..i])
    requires k <= i && r == Inserted(shown, k) && Sorted(r)
    ensures SortedFrom(font, r, es[..i + 1])
  {
    assert es[..i + 1] == es[..i] + [es[i]] && shown == shown[..i] + [es[i]];
    PendingSplit(font, shown[..i], [es[i]]);
    PendingSplit(font, es[..i], [es[i]]);
    InsertedKeeps(font, shown, k);
  }

  method SortEntries(font: EpdFontData, es: seq<PageGlyphEntry>) returns (r: seq<PageGlyphEntry>)
    requires forall i, j :: 0 <= i < j < |es| ==> es[i].glyphIndex != es[j].glyphIndex
    ensures SortedFrom(font, r, es) && |r| == |es|
  {
    r := [];
    var i: nat := 0;
    while i < |es|
      invariant i <= |es| && |r| == i && SortedFrom(font, r, es[..i])
    {
      NextDiffers(r, es, i);
      ghost var shown, k := r + [es[i]], 0;
      assert shown[..i] == r;
      r, k := InsertLast(r + [es[i]]);
      StillSorted(font, r, shown, k, es, i);
      i := i + 1;
    }
    assert es[..i] == es;
  }

  method FindEntry(es: seq<PageGlyphEntry>, i: nat) returns (k: Option<nat>)
    requires Sorted(es)
    ensures k.Some? ==> k.value < |es| && es[k.value].glyphIndex == i
    ensures k.None? ==> forall j :: 0 <= j < |es| ==> es[j].glyphIndex != i
  {
    var left, right := 0, |es| - 1;
    while left <= right
      invariant 0 <= left <= |es| && -1 <= right < |es|
      invariant forall j :: 0 <= j < left ==> es[j].glyphIndex < i
      invariant forall j :: right < j < |es| ==> es[j].glyphIndex > i
      decreases right - left + 1
    {
      var mid := left + (right - left) / 2;
      if es[mid].glyphIndex == i { return Some(mid); }
      if es[mid].glyphIndex < i { left := mid + 1; } else { right := mid - 1; }
    }
    return None;
  }
}
