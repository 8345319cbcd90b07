/** Unicode interval tables: the lookups over them, and the check a table read from the card has to pass. */
module Intervals {
  import opened Bytes

  /** An unsigned 32-bit value. */
  type Word = n: nat | n < 0x1_0000_0000

  datatype EpdUnicodeInterval = EpdUnicodeInterval(first: Word, last: Word, offset: Word)

  const UINT16_MAX := 0xFFFF

  predicate Covers(iv: EpdUnicodeInterval, cp: nat) {
    iv.first <= cp <= iv.last
  }

  ghost predicate Covered(ivs: seq<EpdUnicodeInterval>, cp: nat) {
    exists k :: 0 <= k < |ivs| && Covers(ivs[k], cp)
  }

  /** The plain lookup: the first interval that covers a codepoint gives its glyph index. */
  function Lookup(ivs: seq<EpdUnicodeInterval>, cp: nat): Option<nat> {
    if ivs == [] then None
    else if Covers(ivs[0], cp) then Some(ivs[0].offset + (cp - ivs[0].first))
    else Lookup(ivs[1..], cp)
  }

  ghost predicate Ascending(ivs: seq<EpdUnicodeInterval>) {
    && (forall k :: 0 <= k < |ivs| ==> ivs[k].first <= ivs[k].last)
    && (forall i, j :: 0 <= i < j < |ivs| ==> ivs[i].last < ivs[j].first)
  }

  function Span(iv: EpdUnicodeInterval): int {
    iv.last - iv.first + 1
  }

  ghost predicate Consecutive(ivs: seq<EpdUnicodeInterval>, k: nat)
    requires k < |ivs|
  {
    ivs[k].offset == Start(ivs, k)
  }

  /** What a table promises: its intervals ascend and number the glyphs consecutively, `glyphCount` at most. */
  ghost predicate Layout(ivs: seq<EpdUnicodeInterval>, glyphCount: nat) {
    && Ascending(ivs)
    && (forall k {:trigger Consecutive(ivs, k)} :: 0 <= k < |ivs| ==> Consecutive(ivs, k))
    && Start(ivs, |ivs|) <= glyphCount
  }

  /** Glyphs numbered by the first `k` intervals. */
  function Start(ivs: seq<EpdUnicodeInterval>, k: nat): int
    requires k <= |ivs|
  {
    if k == 0 then 0 else Start(ivs, k - 1) + Span(ivs[k - 1])
  }

  lemma {:induction false} StartGrows(ivs: seq<EpdUnicodeInterval>, i: nat, j: nat)
    requires Ascending(ivs) && i <= j <= |ivs|
    ensures 0 <= Start(ivs, i) <= Start(ivs, j)
    decreases j
  {
    if i < j {
      StartGrows(ivs, i, j - 1);
    } else if i > 0 {
      StartGrows(ivs, i - 1, i - 1);
    }
  }

  lemma {:induction false} LookupAt(ivs: seq<EpdUnicodeInterval>, k: nat, cp: nat)
    requires Ascending(ivs) && k < |ivs| && Covers(ivs[k], cp)
    ensures Lookup(ivs, cp) == Some(ivs[k].offset + (cp - ivs[k].first))
  {
    if k > 0 {
      LookupAt(ivs[1..], k - 1, cp);
    }
  }

  lemma {:induction false} LookupNone(ivs: seq<EpdUnicodeInterval>, cp: nat)
    requires !Covered(ivs, cp)
    ensures Lookup(ivs, cp) == None
  {
    if ivs != [] {
      assert !Covers(ivs[0], cp);
      forall k | 0 <= k < |ivs[1..]| ensures !Covers(ivs[1..][k], cp) {
        assert ivs[1..][k] == ivs[k + 1];
      }
      LookupNone(ivs[1..], cp);
    }
  }

  // --- What the indices are ---

  /** Covered codepoints below `cp`. */
  ghost function Rank(ivs: seq<EpdUnicodeInterval>, cp: nat): nat {
    if cp == 0 then 0 else Rank(ivs, cp - 1) + if Covered(ivs, cp - 1) then 1 else 0
  }

  /** The first interval that does not end below `cp`. */
  ghost predicate IsNext(ivs: seq<EpdUnicodeInterval>, cp: nat, k: nat) {
    && k <= |ivs|
    && (forall i :: 0 <= i < k ==> ivs[i].last < cp)
    && (k < |ivs| ==> cp <= ivs[k].last)
  }

  lemma {:induction false} RankIs(ivs: seq<EpdUnicodeInterval>, cp: nat, k: nat)
    requires Ascending(ivs) && IsNext(ivs, cp, k)
    ensures Rank(ivs, cp) == Start(ivs, k) + if k < |ivs| && ivs[k].first <= cp then cp - ivs[k].first else 0
  {
    if cp == 0 {
      assert k == 0;
    } else if k > 0 && ivs[k - 1].last == cp - 1 {
      assert Covers(ivs[k - 1], cp - 1);
      RankIs(ivs, cp - 1, k - 1);
    } else {
      assert k < |ivs| && ivs[k].first < cp ==> Covers(ivs[k], cp - 1);
      RankIs(ivs, cp - 1, k);
    }
  }

  ghost function NextOf(ivs: seq<EpdUnicodeInterval>, cp: nat, from: nat): (k: nat)
    requires Ascending(ivs) && from <= |ivs| && forall i :: 0 <= i < from ==> ivs[i].last < cp
    ensures IsNext(ivs, cp, k)
    decreases |ivs| - from
  {
    if from == |ivs| || cp <= ivs[from].last then from else NextOf(ivs, cp, from + 1)
  }

  lemma {:induction false} CoveredAt(ivs: seq<EpdUnicodeInterval>, glyphCount: nat, cp: nat, k: nat)
    requires Layout(ivs, glyphCount) && IsNext(ivs, cp, k)
    ensures Covered(ivs, cp) <==> k < |ivs| && Covers(ivs[k], cp)
    ensures k < |ivs| && Covers(ivs[k], cp) ==> Lookup(ivs, cp) == Some(Start(ivs, k) + (cp - ivs[k].first))
    ensures k < |ivs| && Covers(ivs[k], cp) ==> 0 <= Start(ivs, k) + (cp - ivs[k].first) < Start(ivs, k + 1)
  {
    StartGrows(ivs, k, k);
    if k < |ivs| && Covers(ivs[k], cp) {
      assert Consecutive(ivs, k);
      LookupAt(ivs, k, cp);
    } else {
      forall i | 0 <= i < |ivs| ensures !Covers(ivs[i], cp) {
        assert i > k ==> ivs[k].last < ivs[i].first;
      }
    }
  }

  /** A glyph's index is the number of covered codepoints below its own. */
  lemma {:induction false} LookupIsRank(ivs: seq<EpdUnicodeInterval>, glyphCount: nat, cp: nat)
    requires Layout(ivs, glyphCount)
    ensures Lookup(ivs, cp) == if Covered(ivs, cp) then Some(Rank(ivs, cp)) else None
    ensures Rank(ivs, cp) + (if Covered(ivs, cp) then 1 else 0) <= glyphCount
  {
    var k := NextOf(ivs, cp, 0);
    RankIs(ivs, cp, k);
    CoveredAt(ivs, glyphCount, cp, k);
    StartGrows(ivs, k, |ivs|);
    if Covered(ivs, cp) {
      StartGrows(ivs, k + 1, |ivs|);
    } else {
      LookupNone(ivs, cp);
    }
  }

  lemma {:induction false} RankGrows(ivs: seq<EpdUnicodeInterval>, a: nat, b: nat)
    requires a <= b
    ensures Rank(ivs, a) <= Rank(ivs, b)
    decreases b
  {
    if a < b {
      RankGrows(ivs, a, b - 1);
    }
  }

  /** Indices stay below `glyphCount` and grow with the codepoint. */
  lemma {:induction false} LookupIncreases(ivs: seq<EpdUnicodeInterval>, glyphCount: nat, a: nat, b: nat)
    requires Layout(ivs, glyphCount) && a < b
    requires Lookup(ivs, a).Some? && Lookup(ivs, b).Some?
    ensures Lookup(ivs, a).value < Lookup(ivs, b).value < glyphCount
  {
    LookupIsRank(ivs, glyphCount, a);
    LookupIsRank(ivs, glyphCount, b);
    RankGrows(ivs, a + 1, b);
  }

  /** Every number below the total is the index of some codepoint. */
  lemma {:induction false} LookupFills(ivs: seq<EpdUnicodeInterval>, glyphCount: nat, i: nat, k: nat) returns (cp: nat)
    requires Layout(ivs, glyphCount) && k <= |ivs| && i < Start(ivs, k)
    ensures Lookup(ivs, cp) == Some(i)
  {
    if i < Start(ivs, k - 1) {
      cp := LookupFills(ivs, glyphCount, i, k - 1);
    } else {
      assert Consecutive(ivs, k - 1);
      cp := ivs[k - 1].first + (i - Start(ivs, k - 1));
      LookupAt(ivs, k - 1, cp);
    }
  }

  // --- Binary search ---

  /** FontDecompressor::findGlyphIndex: the search over a built-in font's table. */
  method FindGlyphIndex(ivs: seq<EpdUnicodeInterval>, cp: nat) returns (i: Option<nat>)
    requires Ascending(ivs)
    ensures i == Lookup(ivs, cp)
  {
    var left, right := 0, |ivs| - 1;
    while left <= right
      invariant 0 <= left <= |ivs| && -1 <= right < |ivs| && left <= right + 1
      invariant forall k :: 0 <= k < left ==> ivs[k].last < cp
      invariant forall k :: right < k < |ivs| ==> cp < ivs[k].first
      decreases right - left + 1
    {
      var mid := left + (right - left) / 2;
      if cp < ivs[mid].first {
        right := mid - 1;
      } else if cp > ivs[mid].last {
        left := mid + 1;
      } else {
        LookupAt(ivs, mid, cp);
        return Some(ivs[mid].offset + (cp - ivs[mid].first));
      }
    }
    LookupNone(ivs, cp);
    return None;
  }

  /** EpdFont::getGlyph and hasCodepoint: the last interval that starts at or below `cp` is the only candidate. */
  method FindByUpperBound(ivs: seq<EpdUnicodeInterval>, cp: nat) returns (i: Option<nat>)
    requires Ascending(ivs)
    ensures i == Lookup(ivs, cp)
  {
    var lo, hi := 0, |ivs|;
    while lo < hi
      invariant 0 <= lo <= hi <= |ivs|
      invariant forall k :: 0 <= k < lo ==> ivs[k].first <= cp
      invariant forall k :: hi <= k < |ivs| ==> cp < ivs[k].first
    {
      var mid := (lo + hi) / 2;
      if cp < ivs[mid].first { hi := mid; } else { lo := mid + 1; }
    }
    if lo > 0 && cp <= ivs[lo - 1].last {
      LookupAt(ivs, lo - 1, cp);
      return Some(ivs[lo - 1].offset + (cp - ivs[lo - 1].first));
    }
    assert forall k :: 0 <= k < lo ==> ivs[k].last < cp;
    LookupNone(ivs, cp);
    return None;
  }

  // --- Validation of a table read from a .cpfont file ---

  /** `a - b` in 32-bit arithmetic. */
  function Minus(a: Word, b: Word): Word {
    (a - b) % 0x1_0000_0000
  }

  /** The one table that passes although it covers more than any font has glyphs: its span wraps to zero. */
  function Everything(): seq<EpdUnicodeInterval> {
    [EpdUnicodeInterval(0, 0xFFFF_FFFF, 0)]
  }

  const MAX_GLYPHS := 65536

  /** What the records so far and the next expected offset satisfy. */
  ghost predicate Accepted(ivs: seq<EpdUnicodeInterval>, glyphCount: nat, expected: nat) {
    (Layout(ivs, glyphCount) && expected == Start(ivs, |ivs|)) || (ivs == Everything() && expected == 0)
  }

  /** The checks SdCardFont::load makes of record `j`; rejects exactly when no table starting like this can pass. */
  method CheckRecord(ivs: seq<EpdUnicodeInterval>, j: nat, glyphCount: Word, expectedOffset: Word, prevLast: Word)
    returns (ok: bool, next: Word)
    requires j < |ivs| && glyphCount <= MAX_GLYPHS && Accepted(ivs[..j], glyphCount, expectedOffset)
    requires j > 0 ==> prevLast == ivs[j - 1].last
    ensures ok ==> Accepted(ivs[..j + 1], glyphCount, next)
    ensures !ok ==> !Passes(ivs, glyphCount)
  {
    var iv := ivs[j];
    if iv.first > iv.last { return false, 0; }
    var span: Word := Span(iv) % 0x1_0000_0000;
    var overlapsPrev := j > 0 && iv.first <= prevLast;
    var spanTooBig := span > glyphCount;
    var offsetMismatch := iv.offset != expectedOffset;
    var offsetOverruns := iv.offset > Minus(glyphCount, span);
    if overlapsPrev || spanTooBig || offsetMismatch || offsetOverruns {
      Rejected(ivs, glyphCount, j, expectedOffset);
      return false, 0;
    }
    assert ivs[..j] != Everything() by { assert j > 0 ==> ivs[..j][j - 1] == ivs[j - 1]; }
    LayoutNext(ivs, glyphCount, j, expectedOffset);
    return true, (expectedOffset + span) % 0x1_0000_0000;
  }

  /** The tables a load accepts. */
  ghost predicate Passes(ivs: seq<EpdUnicodeInterval>, glyphCount: nat) {
    Layout(ivs, glyphCount) || ivs == Everything()
  }

  predicate Fits16(iv: EpdUnicodeInterval) {
    iv.first <= UINT16_MAX && iv.last <= UINT16_MAX && iv.offset <= UINT16_MAX
  }

  lemma {:induction false} StartOfPrefix(ivs: seq<EpdUnicodeInterval>, n: nat, k: nat)
    requires k <= n <= |ivs|
    ensures Start(ivs[..n], k) == Start(ivs, k)
  {
    if k > 0 {
      StartOfPrefix(ivs, n, k - 1);
    }
  }

  lemma {:induction false} LayoutPrefix(ivs: seq<EpdUnicodeInterval>, glyphCount: nat, n: nat)
    requires Layout(ivs, glyphCount) && n <= |ivs|
    ensures Layout(ivs[..n], glyphCount) && Start(ivs[..n], n) == Start(ivs, n)
  {
    forall k | 0 <= k <= n ensures Start(ivs[..n], k) == Start(ivs, k) {
      StartOfPrefix(ivs, n, k);
    }
    forall k | 0 <= k < n ensures Consecutive(ivs[..n], k) {
      assert Consecutive(ivs, k);
    }
    StartGrows(ivs, n, |ivs|);
  }

  lemma {:induction false} LayoutNext(ivs: seq<EpdUnicodeInterval>, glyphCount: Word, j: nat, expected: Word)
    requires j < |ivs| && glyphCount <= MAX_GLYPHS && ivs[j].first <= ivs[j].last
    requires Layout(ivs[..j], glyphCount) && expected == Start(ivs[..j], j)
    requires j > 0 ==> ivs[j - 1].last < ivs[j].first
    requires Span(ivs[j]) % 0x1_0000_0000 <= glyphCount && ivs[j].offset == expected
    requires ivs[j].offset <= Minus(glyphCount, Span(ivs[j]) % 0x1_0000_0000)
    ensures Accepted(ivs[..j + 1], glyphCount, expected + Span(ivs[j]) % 0x1_0000_0000)
  {
    var next := ivs[..j + 1];
    forall k | 0 <= k <= j ensures Start(next, k) == Start(ivs[..j], k) {
      StartOfPrefix(next, j, k);
      assert next[..j] == ivs[..j];
    }
    if j > 0 {
      assert ivs[..j][j - 1] == ivs[j - 1];
    }
    if Span(ivs[j]) == 0x1_0000_0000 {
      assert next == Everything();
    } else {
      assert next == ivs[..j] + [ivs[j]];
      forall k | 0 <= k <= j ensures Consecutive(next, k) {
        if k < j {
          assert Consecutive(ivs[..j], k);
        }
      }
      assert Start(next, j + 1) == Start(next, j) + Span(next[j]);
    }
  }

  lemma {:induction false} LayoutAt(ivs: seq<EpdUnicodeInterval>, glyphCount: nat, j: nat)
    requires Layout(ivs, glyphCount) && j < |ivs|
    ensures Layout(ivs[..j], glyphCount) && Start(ivs[..j], j) == ivs[j].offset
    ensures ivs[j].offset + Span(ivs[j]) <= glyphCount && (j > 0 ==> ivs[j - 1].last < ivs[j].first)
  {
    LayoutPrefix(ivs, glyphCount, j);
    assert Consecutive(ivs, j);
    StartGrows(ivs, j + 1, |ivs|);
  }

  lemma {:induction false} Rejected(ivs: seq<EpdUnicodeInterval>, glyphCount: Word, j: nat, expected: Word)
    requires j < |ivs| && glyphCount <= MAX_GLYPHS && ivs[j].first <= ivs[j].last
    requires Accepted(ivs[..j], glyphCount, expected)
    requires var span := Span(ivs[j]) % 0x1_0000_0000;
             || (j > 0 && ivs[j].first <= ivs[j - 1].last) || span > glyphCount || ivs[j].offset != expected
             || ivs[j].offset > Minus(glyphCount, span)
    ensures !Passes(ivs, glyphCount)
  {
    if Layout(ivs, glyphCount) {
      LayoutAt(ivs, glyphCount, j);
    }
  }

  /** The span of some interval wraps to zero in 32 bits. */
  ghost predicate SpanWraps(ivs: seq<EpdUnicodeInterval>) {
    exists k :: 0 <= k < |ivs| && ivs[k].first == 0 && ivs[k].last == 0xFFFF_FFFF
  }

  ghost predicate IndicesBelow(ivs: seq<EpdUnicodeInterval>, glyphCount: nat) {
    forall cp: Word :: Lookup(ivs, cp).Some? ==> Lookup(ivs, cp).value < glyphCount
  }

  /** The indices of an accepted table stay below the glyph count exactly if the span of no interval wraps. */
  lemma {:induction false} IndicesFit(ivs: seq<EpdUnicodeInterval>, glyphCount: nat)
    requires glyphCount <= MAX_GLYPHS && Passes(ivs, glyphCount)
    ensures !SpanWraps(ivs) <==> IndicesBelow(ivs, glyphCount)
  {
    if ivs == Everything() {
      assert ivs[0].first == 0 && ivs[0].last == 0xFFFF_FFFF;
      assert Lookup(ivs, 0x10FFFF) == Some(0x10FFFF);
    } else {
      forall cp: Word ensures Lookup(ivs, cp).Some? ==> Lookup(ivs, cp).value < glyphCount {
        LookupIsRank(ivs, glyphCount, cp);
      }
      forall k | 0 <= k < |ivs| ensures !(ivs[k].first == 0 && ivs[k].last == 0xFFFF_FFFF) {
        LayoutAt(ivs, glyphCount, k);
      }
    }
  }
}
