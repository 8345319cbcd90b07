/** The advance table of one style: which codepoints a layout pass collects, fetches and keeps
    (lib/EpdFont/SdCardFont.cpp). */
module AdvanceTables {
  import opened AdvanceMerge
  import opened Bytes
  import opened Card
  import opened FontData
  import opened Intervals
  import opened SdStyle
  import opened Sorting

  // --- Collecting the lowest codepoints ---

  /** Distinct codepoints in a buffer of `limit` entries and two reserved ones. */
  class LowestCodepoints {
    const limit: nat
    const codepoints: array<nat>
    var count: nat
    var largestAt: nat
    /** Everything offered so far. */
    ghost var offers: set<nat>

    ghost predicate Valid()
      reads this, codepoints
    {
      && codepoints.Length == limit + 2 && count <= limit && Distinct(codepoints[..count])
      && IsLowest(Held(), offers, limit)
      && (count == limit > 0 ==> IsLargest(codepoints[..count], largestAt))
    }

    ghost function Held(): set<nat>
      requires count <= codepoints.Length
      reads this, codepoints
    {
      Elements(codepoints[..count])
    }

    constructor (limit: nat)
      ensures Valid() && this.limit == limit && offers == {} && fresh(codepoints)
    {
      this.limit := limit;
      codepoints := new nat[limit + 2];
      count, largestAt, offers := 0, 0, {};
      new;
      assert Held() == {};
    }

    method Contains(cp: nat) returns (found: bool)
      requires count <= codepoints.Length
      ensures found == (cp in Held())
    {
      var i: nat := 0;
      while i < count
        invariant i <= count && cp !in codepoints[..i]
      {
        if codepoints[i] == cp {
          assert cp in codepoints[..count];
          return true;
        }
        i := i + 1;
      }
      return false;
    }

    method FindLargest()
      requires 0 < limit == count <= codepoints.Length
      modifies this`largestAt
      ensures IsLargest(codepoints[..count], largestAt)
    {
      largestAt := 0;
      var i: nat := 1;
      while i < limit
        invariant 1 <= i <= limit && largestAt < i
        invariant forall k :: 0 <= k < i ==> codepoints[k] <= codepoints[largestAt]
      {
        if codepoints[largestAt] < codepoints[i] {
          largestAt := i;
        }
        i := i + 1;
      }
    }

    /** Offers a codepoint; once full, it replaces the largest held if it is smaller. */
    method Add(cp: nat)
      requires Valid() && limit > 0
      modifies this`count, this`largestAt, this`offers, codepoints
      ensures Valid() && offers == old(offers) + {cp}
    {
      ghost var was := codepoints[..count];
      offers := offers + {cp};
      if count == limit && cp >= codepoints[largestAt] {
        TooHigh(was, old(offers), limit, largestAt, cp);
        return;
      }
      var found := Contains(cp);
      if found {
        assert offers == old(offers);
        return;
      }
      if count < limit {
        StillAll(was, old(offers), limit, cp);
        codepoints[count] := cp;
        count := count + 1;
        assert codepoints[..count] == was + [cp];
        if count == limit {
          FindLargest();
        }
        return;
      }
      Replaced(was, old(offers), limit, largestAt, cp);
      codepoints[largestAt] := cp;
      assert codepoints[..count] == was[largestAt := cp];
      FindLargest();
    }

    /** Takes a codepoint past the limit; nothing is added after it but another reserved one. */
    method AddReserved(cp: nat)
      requires count < codepoints.Length && Distinct(codepoints[..count])
      modifies this`count, codepoints
      ensures count <= old(count) + 1 && Distinct(codepoints[..count]) && Held() == old(Held()) + {cp}
    {
      ghost var was := codepoints[..count];
      var found := Contains(cp);
      if !found {
        codepoints[count] := cp;
        count := count + 1;
        assert codepoints[..count] == was + [cp];
        forall x: nat ensures x in was + [cp] <==> x in was || x == cp { }
      }
    }
  }

  predicate IsLargest(s: seq<nat>, at: nat) {
    at < |s| && forall k :: 0 <= k < |s| ==> s[k] <= s[at]
  }

  lemma {:induction false} TooHigh(was: seq<nat>, offers: set<nat>, limit: nat, at: nat, cp: nat)
    requires Distinct(was) && |was| == limit && IsLowest(Elements(was), offers, limit)
    requires IsLargest(was, at) && cp >= was[at]
    ensures IsLowest(Elements(was), offers + {cp}, limit)
  {
    ElementsCount(was);
    SubsetCount(Elements(was), offers);
    SubsetCount(offers, offers + {cp});
    assert was[at] in Elements(was);
  }

  lemma {:induction false} StillAll(was: seq<nat>, offers: set<nat>, limit: nat, cp: nat)
    requires Distinct(was) && |was| < limit && IsLowest(Elements(was), offers, limit) && cp !in was
    ensures Distinct(was + [cp]) && IsLowest(Elements(was + [cp]), offers + {cp}, limit)
  {
    ElementsCount(was);
    SubsetCount(Elements(was), offers);
    assert Elements(was + [cp]) == Elements(was) + {cp};
  }

  lemma {:induction false} Replaced(was: seq<nat>, offers: set<nat>, limit: nat, at: nat, cp: nat)
    requires Distinct(was) && |was| == limit && IsLowest(Elements(was), offers, limit)
    requires IsLargest(was, at) && cp < was[at] && cp !in was
    ensures Distinct(was[at := cp]) && IsLowest(Elements(was[at := cp]), offers + {cp}, limit)
  {
    var now := was[at := cp];
    ElementsCount(was);
    assert Distinct(now);
    ElementsCount(now);
    SubsetCount(Elements(was), offers);
    SubsetCount(offers, offers + {cp});
    forall x | x in now ensures x == cp || (x in was && x != was[at]) {
    }
    forall x | x in was && x != was[at] ensures x in now && x < was[at] {
      var k :| 0 <= k < |was| && was[k] == x;
      assert now[k] == x;
    }
    assert now[at] == cp;
    forall x, y | x in now && y in offers + {cp} && y !in now ensures x < y {
      if y in was {
        assert y == was[at];
      } else {
        assert y in offers && y !in Elements(was) && was[at] in Elements(was);
      }
    }
  }

  // --- The table of a style ---

  datatype CpIdx = CpIdx(codepoint: nat, glyphIndex: nat)

  function GlyphOf(m: CpIdx): int { m.glyphIndex }

  function SourceOf(m: CpIdx): int { m.codepoint }

  function Sources(ms: seq<CpIdx>): set<nat> {
    set m | m in ms :: m.codepoint
  }

  function CodepointOf(e: AdvanceEntry): int { e.codepoint }

  const MIN_ADVANCE_CAPACITY := 64

  /** An entry holds the advance that the file gives its codepoint. */
  predicate Right(style: StyleFile, e: AdvanceEntry) {
    && Resolves(style, e.codepoint) && AdvanceIndex(style, e.codepoint).value < |style.glyphs|
    && e.advanceX == FileGlyph(style, AdvanceIndex(style, e.codepoint).value).advanceX
  }

  /** The file ends before the record that a codepoint takes its advance from. */
  predicate PastEnd(style: StyleFile, cp: nat) {
    Resolves(style, cp) && AdvanceIndex(style, cp).value >= |style.glyphs|
  }

  ghost predicate Short(style: StyleFile, cps: set<nat>) {
    exists cp :: cp in cps && PastEnd(style, cp)
  }

  ghost predicate AllRight(style: StyleFile, s: seq<AdvanceEntry>) {
    InOrder(s) && forall i :: 0 <= i < |s| ==> Right(style, s[i])
  }

  /** The codepoints among `cps` that the table lacks and the style can resolve. */
  function Fetchable(style: StyleFile, keys: set<nat>, cps: seq<nat>): set<nat> {
    set cp | cp in cps && cp !in keys && Resolves(style, cp)
  }

  /** The codepoints a pass is after: those to fetch, or those to count as missed. */
  datatype Pass = Collect | Count

  predicate Wants(style: StyleFile, keys: set<nat>, pass: Pass, cp: nat) {
    if pass.Collect? then cp !in keys && Resolves(style, cp) else !Resolves(style, cp)
  }

  function Wanted(style: StyleFile, keys: set<nat>, pass: Pass, cps: seq<nat>): set<nat> {
    set cp | cp in cps && Wants(style, keys, pass, cp)
  }

  /** Whether small caps are set, and the capital of each codepoint. */
  datatype Caps = Caps(on: bool, upper: nat -> nat)

  function OffersOf(cp: nat, caps: Caps): seq<nat> {
    if caps.on && caps.upper(cp) != cp then [cp, caps.upper(cp)] else [cp]
  }

  function Offers(word: seq<nat>, caps: Caps): seq<nat> {
    if word == [] then [] else Offers(word[..|word| - 1], caps) + OffersOf(word[|word| - 1], caps)
  }

  function AllOffers(words: seq<seq<nat>>, caps: Caps): seq<nat> {
    if words == [] then [] else AllOffers(words[..|words| - 1], caps) + Offers(words[|words| - 1], caps)
  }

  /** What offering `cps` made of the offers `was`, and whether one of them could never be cached. */
  ghost predicate Gathered(style: StyleFile, keys: set<nat>, pass: Pass, was: set<nat>, now: set<nat>, lacks: bool,
                           cps: seq<nat>) {
    now == was + Wanted(style, keys, pass, cps) && (lacks <==> pass.Collect? && Lacking(style, keys, cps) != {})
  }

  lemma {:induction false} GatheredBoth(style: StyleFile, keys: set<nat>, pass: Pass, was: set<nat>, mid: set<nat>,
                                        now: set<nat>, first: bool, second: bool, a: seq<nat>, b: seq<nat>)
    requires Gathered(style, keys, pass, was, mid, first, a) && Gathered(style, keys, pass, mid, now, second, b)
    ensures Gathered(style, keys, pass, was, now, first || second, a + b)
  {
    assert Wanted(style, keys, pass, a + b) == Wanted(style, keys, pass, a) + Wanted(style, keys, pass, b);
    assert Lacking(style, keys, a + b) == Lacking(style, keys, a) + Lacking(style, keys, b);
  }

  lemma {:induction false} NextOffers(style: StyleFile, keys: set<nat>, pass: Pass, was: set<nat>, mid: set<nat>,
                                      now: set<nat>, first: bool, second: bool, word: seq<nat>, caps: Caps, i: nat)
    requires i < |word| && Gathered(style, keys, pass, was, mid, first, Offers(word[..i], caps))
    requires Gathered(style, keys, pass, mid, now, second, OffersOf(word[i], caps))
    ensures Gathered(style, keys, pass, was, now, first || second, Offers(word[..i + 1], caps))
  {
    GatheredBoth(style, keys, pass, was, mid, now, first, second, Offers(word[..i], caps), OffersOf(word[i], caps));
    assert word[..i + 1][..i] == word[..i];
  }

  lemma {:induction false} NextWord(style: StyleFile, keys: set<nat>, pass: Pass, was: set<nat>, mid: set<nat>,
                                    now: set<nat>, first: bool, second: bool, words: seq<seq<nat>>, caps: Caps,
                                    w: nat)
    requires w < |words| && Gathered(style, keys, pass, was, mid, first, AllOffers(words[..w], caps))
    requires Gathered(style, keys, pass, mid, now, second, Offers(words[w], caps))
    ensures Gathered(style, keys, pass, was, now, first || second, AllOffers(words[..w + 1], caps))
  {
    GatheredBoth(style, keys, pass, was, mid, now, first, second, AllOffers(words[..w], caps), Offers(words[w], caps));
    assert words[..w + 1][..w] == words[..w];
  }

  lemma {:induction false} GatheredOne(style: StyleFile, keys: set<nat>, pass: Pass, was: set<nat>, cp: nat)
    ensures Gathered(style, keys, pass, was, was, false, [])
    ensures Gathered(style, keys, pass, was, was + (if Wants(style, keys, pass, cp) then {cp} else {}),
                     pass.Collect? && cp !in keys && !Resolves(style, cp), [cp])
  {
    assert Wanted(style, keys, pass, [cp]) == if Wants(style, keys, pass, cp) then {cp} else {};
    assert Lacking(style, keys, [cp]) == if cp !in keys && !Resolves(style, cp) then {cp} else {};
  }

  /** Before anything is offered. */
  lemma {:induction false} GatheredNothing(style: StyleFile, keys: set<nat>, pass: Pass, was: set<nat>, word: seq<nat>,
                                           words: seq<seq<nat>>, caps: Caps)
    ensures Gathered(style, keys, pass, was, was, false, Offers(word[..0], caps))
    ensures Gathered(style, keys, pass, was, was, false, AllOffers(words[..0], caps))
  {
    GatheredOne(style, keys, pass, was, 0);
  }

  lemma {:induction false} WholeWord(word: seq<nat>, i: nat, caps: Caps)
    requires i == |word|
    ensures Offers(word[..i], caps) == Offers(word, caps)
  {
    assert word[..i] == word;
  }

  /** The words, then the reserved codepoints. */
  lemma {:induction false} GatheredAll(style: StyleFile, keys: set<nat>, pass: Pass, picked: set<nat>, mid: set<nat>,
                                       held: set<nat>, first: bool, space: bool, hyphen: bool, offers: seq<nat>,
                                       a: seq<nat>, b: seq<nat>, limit: nat)
    requires IsLowest(picked, Wanted(style, keys, pass, offers), limit)
    requires first <==> pass.Collect? && Lacking(style, keys, offers) != {}
    requires Gathered(style, keys, pass, picked, mid, space, a) && Gathered(style, keys, pass, mid, held, hyphen, b)
    ensures Picked(held, Wanted(style, keys, pass, offers), Wanted(style, keys, pass, a + b), limit)
    ensures first || space || hyphen <==> pass.Collect? && Lacking(style, keys, offers + (a + b)) != {}
  {
    GatheredBoth(style, keys, pass, picked, mid, held, space, hyphen, a, b);
    WantedBoth(style, keys, pass, offers, a + b);
  }

  const ADVANCE_GROWTH_HEADROOM := 64
  const INLINE_CODEPOINTS := 32
  const SPACE := 32
  const HYPHEN := 45

  function TotalLength(words: seq<seq<nat>>): nat {
    if words == [] then 0 else TotalLength(words[..|words| - 1]) + |words[|words| - 1]|
  }

  function Extras(includeSpace: bool, includeHyphen: bool): seq<nat> {
    (if includeSpace then [SPACE] else []) + if includeHyphen then [HYPHEN] else []
  }

  /** Every codepoint a layout pass asks for. */
  function Requested(words: seq<seq<nat>>, caps: Caps, includeSpace: bool, includeHyphen: bool): seq<nat> {
    AllOffers(words, caps) + Extras(includeSpace, includeHyphen)
  }

  /** A word holds the codepoint, or one whose capital it is when small caps are set. */
  ghost predicate AskedBy(word: seq<nat>, caps: Caps, cp: nat) {
    exists i :: 0 <= i < |word| && (word[i] == cp || (caps.on && caps.upper(word[i]) == cp))
  }

  /** A pass asks for the codepoints of its words and their capitals, and for U+0020 and U+002D when told to. */
  lemma {:induction false} RequestedHas(words: seq<seq<nat>>, caps: Caps, includeSpace: bool, includeHyphen: bool,
                                        cp: nat)
    ensures cp in Requested(words, caps, includeSpace, includeHyphen) <==>
            || (exists w :: 0 <= w < |words| && AskedBy(words[w], caps, cp))
            || (includeSpace && cp == 0x20) || (includeHyphen && cp == 0x2D)
  {
    AllOffersHas(words, caps, cp);
  }

  lemma {:induction false} AllOffersHas(words: seq<seq<nat>>, caps: Caps, cp: nat)
    ensures cp in AllOffers(words, caps) <==> exists w :: 0 <= w < |words| && AskedBy(words[w], caps, cp)
  {
    if words != [] {
      var n := |words| - 1;
      AllOffersHas(words[..n], caps, cp);
      OffersHas(words[n], caps, cp);
      assert forall w :: 0 <= w < n ==> words[..n][w] == words[w];
      assert cp in AllOffers(words[..n], caps) ==> exists w :: 0 <= w < n && AskedBy(words[w], caps, cp);
    }
  }

  lemma {:induction false} OffersHas(word: seq<nat>, caps: Caps, cp: nat)
    ensures cp in Offers(word, caps) <==> AskedBy(word, caps, cp)
  {
    if word != [] {
      var n := |word| - 1;
      OffersHas(word[..n], caps, cp);
      assert forall i :: 0 <= i < n ==> word[..n][i] == word[i];
      assert cp in OffersOf(word[n], caps) <==> word[n] == cp || (caps.on && caps.upper(word[n]) == cp);
      assert AskedBy(word, caps, cp) <==>
        AskedBy(word[..n], caps, cp) || word[n] == cp || (caps.on && caps.upper(word[n]) == cp);
    }
  }

  class StyleAdvances {
    const card: Device
    const style: StyleFile
    /** Its length is the capacity. */
    var table: array<AdvanceEntry>
    var size: nat

    ghost predicate Valid()
      reads this, table
    {
      size <= table.Length && size <= ADVANCE_CACHE_LIMIT && AllRight(style,
                                                                      table[..size]) && Ascending(style.intervals)
    }

    ghost function Keys(): set<nat>
      requires size <= table.Length
      reads this, table
    {
      KeysOf(table[..size])
    }

    constructor (card: Device, style: StyleFile)
      requires Ascending(style.intervals)
      ensures Valid() && this.card == card && this.style == style && size == 0 && fresh(table)
    {
      this.card, this.style := card, style;
      table, size := new AdvanceEntry[0], 0;
    }

    /** The binary search behind advanceTableLookup and getAdvance. */
    method Find(cp: nat) returns (advance: Option<nat>)
      requires Valid()
      ensures advance.Some? <==> cp in Keys()
      ensures advance.Some? ==> Right(style, AdvanceEntry(cp, advance.value))
    {
      var lo, hi := 0, size;
      while lo < hi
        invariant 0 <= lo <= hi <= size
        invariant forall k :: 0 <= k < lo ==> table[k].codepoint < cp
        invariant forall k :: hi <= k < size ==> table[k].codepoint >= cp
      {
        var mid := lo + (hi - lo) / 2;
        assert forall k :: 0 <= k < size ==> table[..size][k] == table[k];
        if table[mid].codepoint < cp { lo := mid + 1; } else { hi := mid; }
      }
      assert forall k :: 0 <= k < size ==> table[..size][k] == table[k];
      if lo < size && table[lo].codepoint == cp {
        assert table[lo] in table[..size];
        return Some(table[lo].advanceX);
      }
      return None;
    }

    /** SdCardFont::getAdvance: the cached advance, or 0. */
    method GetAdvance(cp: nat) returns (advance: nat)
      requires Valid()
      ensures advance == if cp in Keys() then FileGlyph(style, AdvanceIndex(style, cp).value).advanceX else 0
    {
      var found := Find(cp);
      advance := if found.Some? then found.value else 0;
    }

    /** Makes room for `needed` entries, doubling the capacity if it can. */
    method Grow(needed: nat) returns (ok: bool)
      requires Valid() && size <= needed <= ADVANCE_CACHE_LIMIT
      modifies this`table, card`faults
      ensures card.faults >= old(card.faults) && (!ok ==> card.faults > old(card.faults))
      ensures Valid() && table[..size] == old(table[..size]) && (table == old(table) || fresh(table))
      ensures ok ==> table.Length >= needed
      ensures !ok ==> table == old(table)
    {
      if needed <= table.Length { return true; }
      var capacity := table.Length * 2;
      if capacity < needed { capacity := needed; }
      if capacity < MIN_ADVANCE_CAPACITY { capacity := MIN_ADVANCE_CAPACITY; }
      if capacity > ADVANCE_CACHE_LIMIT { capacity := ADVANCE_CACHE_LIMIT; }
      ok := card.Try();
      if !ok && capacity > needed {
        capacity := needed;
        ok := card.Try();
      }
      if !ok { return; }
      var grown := new AdvanceEntry[capacity](
        i requires 0 <= i reads this, table => if i < size && i < table.Length then table[i] else AdvanceEntry(0, 0));
      assert grown[..size] == table[..size];
      table := grown;
    }

    /** Merges new entries in, keeping the lowest up to the limit; without memory the table stays as it is. */
    method MergeInto(sortedNew: seq<AdvanceEntry>) returns (ghost ok: bool)
      requires Valid() && AllRight(style, sortedNew) && Apart(table[..size], sortedNew)
      modifies this`table, this`size, table, card`faults
      ensures card.faults >= old(card.faults) && (!ok ==> card.faults > old(card.faults))
      ensures Valid() && (table == old(table) || fresh(table))
      ensures ok && old(size) < ADVANCE_CACHE_LIMIT ==>
        IsLowest(Keys(), old(Keys()) + KeysOf(sortedNew), ADVANCE_CACHE_LIMIT)
      ensures !ok || old(size) == ADVANCE_CACHE_LIMIT ==> Keys() == old(Keys())
    {
      ok := true;
      if |sortedNew| == 0 {
        KeysAreLowest(table[..size]);
        assert KeysOf(sortedNew) == {};
        return;
      }
      if size >= ADVANCE_CACHE_LIMIT { return; }
      var merged := size + |sortedNew|;
      if merged > ADVANCE_CACHE_LIMIT { merged := ADVANCE_CACHE_LIMIT; }
      ok := MergeGrown(sortedNew, merged);
    }

    /** Makes room for the merge and does it. */
    method MergeGrown(sortedNew: seq<AdvanceEntry>, merged: nat) returns (ok: bool)
      requires Valid() && AllRight(style, sortedNew) && Apart(table[..size], sortedNew)
      requires merged == if size + |sortedNew| > ADVANCE_CACHE_LIMIT then ADVANCE_CACHE_LIMIT else size + |sortedNew|
      modifies this`table, this`size, table, card`faults
      ensures card.faults >= old(card.faults) && (!ok ==> card.faults > old(card.faults))
      ensures Valid() && (table == old(table) || fresh(table))
      ensures if ok then IsLowest(Keys(), old(Keys()) + KeysOf(sortedNew),
                                  ADVANCE_CACHE_LIMIT) else Keys() == old(Keys())
    {
      ghost var was := table[..size];
      ok := Grow(merged);
      if !ok { return; }
      MergeFromBack(table, size, sortedNew, merged);
      size := merged;
      MergedCut(was, sortedNew, merged);
      MergedRight(style, was, sortedNew, table[..size]);
    }

    /** The glyph each uncached codepoint takes its advance from; the others are counted as missed. */
    method Resolve(cps: seq<nat>) returns (ms: seq<CpIdx>, missed: nat)
      requires Valid() && Distinct(cps)
      ensures Resolved(style, Keys(), cps, ms)
      ensures missed == |Lacking(style, Keys(), cps)|
    {
      ms, missed := [], 0;
      var replacement := FindGlyphIndex(style.intervals, REPLACEMENT_GLYPH);
      var i: nat := 0;
      while i < |cps|
        invariant i <= |cps| && Resolved(style, Keys(), cps[..i], ms)
        invariant missed == |Lacking(style, Keys(), cps[..i])|
      {
        var cp := cps[i];
        ResolvedNext(style, Keys(), cps, i, ms);
        LackingNext(style, Keys(), cps, i);
        var cached := Find(cp);
        if cached.None? {
          var own := FindGlyphIndex(style.intervals, cp);
          if own.Some? || replacement.Some? {
            ms := ms + [CpIdx(cp, if own.Some? then own.value else replacement.value)];
          } else {
            missed := missed + 1;
          }
        }
        i := i + 1;
      }
      assert cps[..i] == cps;
    }

    /** Reads the advances in glyph order, as far as the file lets it. */
    method Read(ms: seq<CpIdx>) returns (staged: seq<AdvanceEntry>, ghost ok: bool)
      requires forall k :: 0 <= k < |ms| ==> AdvanceIndex(style, ms[k].codepoint) == Some(ms[k].glyphIndex)
      modifies card`faults
      ensures card.faults >= old(card.faults)
      ensures !ok ==> card.faults > old(card.faults) || exists k :: 0 <= k < |ms| && PastEnd(style, ms[k].codepoint)
      ensures |staged| <= |ms| && (ok ==> |staged| == |ms|)
      ensures forall k :: 0 <= k < |staged| ==> staged[k].codepoint == ms[k].codepoint && Right(style, staged[k])
    {
      staged, ok := [], true;
      var i: nat := 0;
      while i < |ms|
        invariant i == |staged| <= |ms| && card.faults >= old(card.faults)
        invariant forall k :: 0 <= k < i ==> staged[k].codepoint == ms[k].codepoint && Right(style, staged[k])
      {
        var readable := card.Try();
        if !readable || ms[i].glyphIndex >= |style.glyphs| {
          assert readable ==> PastEnd(style, ms[i].codepoint);
          ok := false;
          break;
        }
        staged := staged + [AdvanceEntry(ms[i].codepoint, FileGlyph(style, ms[i].glyphIndex).advanceX)];
        i := i + 1;
      }
    }

    /** SdCardFont::fetchAdvancesForCodepoints for one style: `got` are the codepoints read. */
    method Fetch(cps: seq<nat>) returns (missed: nat, ghost got: set<nat>, ghost ok: bool)
      requires Valid() && Distinct(cps) && size < ADVANCE_CACHE_LIMIT
      modifies this`table, this`size, table, card`faults
      ensures card.faults >= old(card.faults)
      ensures !ok ==> card.faults > old(card.faults) || Short(style, Fetchable(style, old(Keys()), cps))
      ensures Valid() && (table == old(table) || fresh(table))
      ensures got <= Fetchable(style, old(Keys()), cps) && (ok ==> got == Fetchable(style, old(Keys()), cps))
      ensures IsLowest(Keys(), old(Keys()) + got, ADVANCE_CACHE_LIMIT)
      ensures ok ==> missed == |Lacking(style, old(Keys()), cps)|
    {
      got, ok := {}, false;
      KeysAreLowest(table[..size]);
      var memory := card.Try();
      if !memory { return |cps|, got, ok; }
      var ms;
      ms, missed := Resolve(cps);
      if |ms| == 0 {
        ok := true;
        NothingToFetch(style, Keys(), cps, ms);
        return;
      }
      var opens := card.Try();
      if !opens { return; }
      var room := card.Try();
      if !room { return; }
      var sorted := SortBy(ms, GlyphOf);
      SortedMappings(style, Keys(), cps, ms);
      var staged, complete := Read(sorted);
      ReadShort(style, Keys(), cps, sorted);
      StagedOk(style, table[..size], cps, sorted, staged, complete);
      var merged := MergeInto(SortBy(staged, CodepointOf));
      if merged {
        got, ok := KeysOf(SortBy(staged, CodepointOf)), complete;
      }
    }

    // --- A layout pass ---

    method CanResolve(cp: nat) returns (resolves: bool)
      requires Ascending(style.intervals)
      ensures resolves == Resolves(style, cp)
    {
      var own := FindGlyphIndex(style.intervals, cp);
      var replacement := FindGlyphIndex(style.intervals, REPLACEMENT_GLYPH);
      resolves := own.Some? || replacement.Some?;
    }

    /** Offers a codepoint if the pass wants it. */
    method Offer(cp: nat, pass: Pass, into: LowestCodepoints, ghost keys: set<nat>) returns (lacks: bool)
      requires Valid() && Keys() == keys && into.Valid() && into.limit > 0
      modifies into`count, into`largestAt, into`offers, into.codepoints
      ensures into.Valid() && Valid() && Keys() == keys
      ensures Gathered(style, keys, pass, old(into.offers), into.offers, lacks, [cp])
    {
      GatheredOne(style, keys, pass, into.offers, cp);
      lacks := false;
      if pass.Collect? {
        var cached := Find(cp);
        if cached.Some? { return; }
      }
      var resolves := CanResolve(cp);
      if resolves == pass.Collect? {
        into.Add(cp);
      } else {
        lacks := pass.Collect?;
      }
    }

    /** Offers a codepoint of the text, and its capital for small caps. */
    method OfferBoth(cp: nat, caps: Caps, pass: Pass, into: LowestCodepoints, ghost keys: set<nat>)
      returns (lacks: bool)
      requires Valid() && Keys() == keys && into.Valid() && into.limit > 0
      modifies into`count, into`largestAt, into`offers, into.codepoints
      ensures into.Valid() && Valid() && Keys() == keys
      ensures Gathered(style, keys, pass, old(into.offers), into.offers, lacks, OffersOf(cp, caps))
    {
      ghost var was := into.offers;
      lacks := Offer(cp, pass, into, keys);
      if caps.on {
        var upper := caps.upper(cp);
        if upper != cp {
          ghost var mid, first := into.offers, lacks;
          var upperLacks := Offer(upper, pass, into, keys);
          lacks := lacks || upperLacks;
          GatheredBoth(style, keys, pass, was, mid, into.offers, first, upperLacks, [cp], [upper]);
          assert OffersOf(cp, caps) == [cp] + [upper];
        }
      }
    }

    /** Offers codepoint `i` of a word, those before it being offered. */
    method OfferNext(word: seq<nat>, i: nat, caps: Caps, pass: Pass, into: LowestCodepoints, ghost keys: set<nat>,
                     ghost was: set<nat>, lacked: bool) returns (lacks: bool)
      requires Valid() && Keys() == keys && into.Valid() && into.limit > 0 && i < |word|
      requires Gathered(style, keys, pass, was, into.offers, lacked, Offers(word[..i], caps))
      modifies into`count, into`largestAt, into`offers, into.codepoints
      ensures into.Valid() && Valid() && Keys() == keys
      ensures Gathered(style, keys, pass, was, into.offers, lacks, Offers(word[..i + 1], caps))
    {
      ghost var mid := into.offers;
      var more := OfferBoth(word[i], caps, pass, into, keys);
      NextOffers(style, keys, pass, was, mid, into.offers, lacked, more, word, caps, i);
      lacks := lacked || more;
    }

    /** Offers the codepoints of one word. */
    method OfferWord(word: seq<nat>, caps: Caps, pass: Pass, into: LowestCodepoints, ghost keys: set<nat>)
      returns (lacks: bool)
      requires Valid() && Keys() == keys && into.Valid() && (word != [] ==> into.limit > 0)
      modifies into`count, into`largestAt, into`offers, into.codepoints
      ensures into.Valid() && Valid() && Keys() == keys
      ensures Gathered(style, keys, pass, old(into.offers), into.offers, lacks, Offers(word, caps))
    {
      ghost var was := into.offers;
      GatheredNothing(style, keys, pass, was, word, [], caps);
      lacks := false;
      var i: nat := 0;
      while i < |word|
        invariant i <= |word| && into.Valid() && Valid() && Keys() == keys
        invariant Gathered(style, keys, pass, was, into.offers, lacks, Offers(word[..i], caps))
      {
        lacks := OfferNext(word, i, caps, pass, into, keys, was, lacks);
        i := i + 1;
      }
      WholeWord(word, i, caps);
    }

    /** Offers word `w`, those before it being offered. */
    method OfferNextWord(words: seq<seq<nat>>, w: nat, caps: Caps, pass: Pass, into: LowestCodepoints,
                         ghost keys: set<nat>, ghost was: set<nat>, lacked: bool) returns (lacks: bool)
      requires Valid() && Keys() == keys && into.Valid() && w < |words| && (words[w] != [] ==> into.limit > 0)
      requires Gathered(style, keys, pass, was, into.offers, lacked, AllOffers(words[..w], caps))
      modifies into`count, into`largestAt, into`offers, into.codepoints
      ensures into.Valid() && Valid() && Keys() == keys
      ensures Gathered(style, keys, pass, was, into.offers, lacks, AllOffers(words[..w + 1], caps))
    {
      ghost var mid := into.offers;
      var more := OfferWord(words[w], caps, pass, into, keys);
      NextWord(style, keys, pass, was, mid, into.offers, lacked, more, words, caps, w);
      lacks := lacked || more;
    }

    /** Offers every word of the pass. */
    method OfferAll(words: seq<seq<nat>>, caps: Caps, pass: Pass, into: LowestCodepoints, ghost keys: set<nat>)
      returns (lacks: bool)
      requires Valid() && Keys() == keys && into.Valid()
      requires forall w :: 0 <= w < |words| ==> words[w] == [] || into.limit > 0
      modifies into`count, into`largestAt, into`offers, into.codepoints
      ensures into.Valid() && Valid() && Keys() == keys
      ensures Gathered(style, keys, pass, old(into.offers), into.offers, lacks, AllOffers(words, caps))
    {
      ghost var was := into.offers;
      GatheredNothing(style, keys, pass, was, [], words, caps);
      lacks := false;
      var w: nat := 0;
      while w < |words|
        invariant w <= |words| && into.Valid() && Valid() && Keys() == keys
        invariant Gathered(style, keys, pass, was, into.offers, lacks, AllOffers(words[..w], caps))
      {
        lacks := OfferNextWord(words, w, caps, pass, into, keys, was, lacks);
        w := w + 1;
      }
      assert words[..w] == words;
    }

    /** Offers a codepoint past the limit. */
    method OfferReserved(cp: nat, asked: bool, pass: Pass, into: LowestCodepoints, ghost keys: set<nat>)
      returns (lacks: bool)
      requires Valid() && Keys() == keys && into.count < into.codepoints.Length
      requires Distinct(into.codepoints[..into.count])
      modifies into`count, into.codepoints
      ensures into.count <= old(into.count) + 1 <= into.codepoints.Length && Distinct(into.codepoints[..into.count])
      ensures Valid() && Keys() == keys
      ensures Gathered(style, keys, pass, old(into.Held()), into.Held(), lacks, if asked then [cp] else [])
    {
      GatheredOne(style, keys, pass, into.Held(), cp);
      lacks := false;
      if !asked { return; }
      if pass.Collect? {
        var cached := Find(cp);
        if cached.Some? { return; }
      }
      var resolves := CanResolve(cp);
      if resolves == pass.Collect? {
        into.AddReserved(cp);
      } else {
        lacks := pass.Collect?;
      }
    }

    /** One pass over everything requested: the codepoints to fetch, or those to count. */
    method Gather(words: seq<seq<nat>>, limit: nat, caps: Caps, includeSpace: bool, includeHyphen: bool, pass: Pass)
      returns (cps: seq<nat>, lacks: bool)
      requires Valid() && forall w :: 0 <= w < |words| ==> words[w] == [] || limit > 0
      ensures Distinct(cps)
      ensures Picked(Elements(cps), Wanted(style, Keys(), pass, AllOffers(words, caps)),
                     Wanted(style, Keys(), pass, Extras(includeSpace, includeHyphen)), limit)
      ensures lacks <==>
        pass.Collect? && Lacking(style, Keys(), Requested(words, caps, includeSpace, includeHyphen)) != {}
    {
      var into := new LowestCodepoints(limit);
      ghost var keys := Keys();
      lacks := OfferAll(words, caps, pass, into, keys);
      ghost var picked, first := into.Held(), lacks;
      var spaceLacks := OfferReserved(SPACE, includeSpace, pass, into, keys);
      ghost var mid := into.Held();
      var hyphenLacks := OfferReserved(HYPHEN, includeHyphen, pass, into, keys);
      GatheredAll(style, keys, pass, picked, mid, into.Held(), lacks, spaceLacks, hyphenLacks, AllOffers(words, caps),
                  if includeSpace then [SPACE] else [], if includeHyphen then [HYPHEN] else [], limit);
      lacks := lacks || spaceLacks || hyphenLacks;
      cps := into.codepoints[..into.count];
    }

    /** Collects the lowest codepoints wanted, fetches them, and counts those that no glyph covers. */
    method CollectAndFetch(words: seq<seq<nat>>, limit: nat, caps: Caps, includeSpace: bool, includeHyphen: bool)
      returns (missed: int, ghost got: set<nat>, ghost ok: bool)
      requires Valid() && size < ADVANCE_CACHE_LIMIT
      requires forall w :: 0 <= w < |words| ==> words[w] == [] || limit > 0
      requires |AllOffers(words, caps)| <= limit || limit == ADVANCE_CACHE_LIMIT
      modifies this`table, this`size, table, card`faults
      ensures card.faults >= old(card.faults)
      ensures !ok ==> card.faults > old(card.faults)
                      || Short(style, Wanted(style, old(Keys()), Collect,
                                             Requested(words, caps, includeSpace, includeHyphen)))
      ensures Valid() && (table == old(table) || fresh(table))
      ensures got <= Wanted(style, old(Keys()), Collect, Requested(words, caps, includeSpace, includeHyphen))
      ensures IsLowest(Keys(), old(Keys()) + got, ADVANCE_CACHE_LIMIT)
      ensures ok ==>
        IsLowest(Keys(), old(Keys()) + Wanted(style, old(Keys()), Collect,
                                              Requested(words, caps, includeSpace, includeHyphen)), ADVANCE_CACHE_LIMIT)
      ensures ok ==>
        var lacking := Wanted(style, old(Keys()), Count, Requested(words, caps, includeSpace, includeHyphen));
        |lacking| <= ADVANCE_CACHE_LIMIT ==> missed == |lacking|
    {
      ghost var keys := Keys();
      var anyLacking, lacking := false, 0;
      missed, anyLacking, got, ok := FetchLowest(words, limit, caps, includeSpace, includeHyphen);
      if anyLacking {
        lacking := CountLacking(words, limit, caps, includeSpace, includeHyphen, keys);
      }
      missed := missed + lacking;
    }

    /** The first pass, over what can be fetched. */
    method FetchLowest(words: seq<seq<nat>>, limit: nat, caps: Caps, includeSpace: bool, includeHyphen: bool)
      returns (missed: int, anyLacking: bool, ghost got: set<nat>, ghost ok: bool)
      requires Valid() && size < ADVANCE_CACHE_LIMIT
      requires forall w :: 0 <= w < |words| ==> words[w] == [] || limit > 0
      requires |AllOffers(words, caps)| <= limit || limit == ADVANCE_CACHE_LIMIT
      modifies this`table, this`size, table, card`faults
      ensures card.faults >= old(card.faults)
      ensures !ok ==> card.faults > old(card.faults)
                      || Short(style, Wanted(style, old(Keys()), Collect,
                                             Requested(words, caps, includeSpace, includeHyphen)))
      ensures Valid() && (table == old(table) || fresh(table))
      ensures got <= Wanted(style, old(Keys()), Collect, Requested(words, caps, includeSpace, includeHyphen))
      ensures IsLowest(Keys(), old(Keys()) + got, ADVANCE_CACHE_LIMIT)
      ensures ok ==>
        IsLowest(Keys(), old(Keys()) + Wanted(style, old(Keys()), Collect,
                                              Requested(words, caps, includeSpace, includeHyphen)), ADVANCE_CACHE_LIMIT)
      ensures ok ==> missed == 0
      ensures anyLacking <==>
        Wanted(style, old(Keys()), Count, Requested(words, caps, includeSpace, includeHyphen)) != {}
    {
      ghost var keys, offers, extras := Keys(), AllOffers(words, caps), Extras(includeSpace, includeHyphen);
      KeysResolve(style, table[..size], offers + extras);
      var cps;
      cps, anyLacking := Gather(words, limit, caps, includeSpace, includeHyphen, Collect);
      PickedFetchable(style, keys, cps, offers, extras, limit);
      missed, got, ok := Fetch(SortBy(cps, x => x));
      PickedLosesNothing(style, keys, Keys(), Elements(cps), offers, extras, limit);
    }

    /** The second pass, over what no glyph covers. */
    method CountLacking(words: seq<seq<nat>>, limit: nat, caps: Caps, includeSpace: bool, includeHyphen: bool,
                        ghost keys: set<nat>) returns (n: nat)
      requires Valid() && forall w :: 0 <= w < |words| ==> words[w] == [] || limit > 0
      requires |AllOffers(words, caps)| <= limit || limit == ADVANCE_CACHE_LIMIT
      ensures var lacking := Wanted(style, keys, Count, Requested(words, caps, includeSpace, includeHyphen));
              |lacking| <= ADVANCE_CACHE_LIMIT ==> n == |lacking|
    {
      ghost var offers, extras := AllOffers(words, caps), Extras(includeSpace, includeHyphen);
      var lacking, more := Gather(words, limit, caps, includeSpace, includeHyphen, Count);
      CountedIgnoresKeys(style, Keys(), keys, offers);
      CountedIgnoresKeys(style, Keys(), keys, extras);
      CountOk(style, keys, lacking, offers, extras, limit);
      n := |lacking|;
    }

    /** SdCardFont::buildAdvanceTablePacked for one style: fetches what the words need and the table lacks.
        `bytes` is the length of the words in bytes. */
    method Build(words: seq<seq<nat>>, bytes: nat, caps: Caps, includeSpace: bool, includeHyphen: bool)
      returns (missed: int, ghost got: set<nat>, ghost ok: bool)
      requires Valid() && TotalLength(words) <= bytes
      modifies this`table, this`size, table, card`faults
      ensures card.faults >= old(card.faults)
      ensures !ok ==> card.faults > old(card.faults)
                      || Short(style, Wanted(style, old(Keys()), Collect,
                                             Requested(words, caps, includeSpace, includeHyphen)))
      ensures Valid() && (table == old(table) || fresh(table))
      ensures got <= Wanted(style, old(Keys()), Collect, Requested(words, caps, includeSpace, includeHyphen))
      ensures old(size) == ADVANCE_CACHE_LIMIT ==> Keys() == old(Keys())
      ensures old(size) < ADVANCE_CACHE_LIMIT ==> IsLowest(Keys(), old(Keys()) + got, ADVANCE_CACHE_LIMIT)
      ensures ok && old(size) < ADVANCE_CACHE_LIMIT ==>
        IsLowest(Keys(), old(Keys()) + Wanted(style, old(Keys()), Collect,
                                              Requested(words, caps, includeSpace, includeHyphen)), ADVANCE_CACHE_LIMIT)
      ensures ok && old(size) < ADVANCE_CACHE_LIMIT ==>
        var lacking := Wanted(style, old(Keys()), Count, Requested(words, caps, includeSpace, includeHyphen));
        |lacking| <= ADVANCE_CACHE_LIMIT ==> missed == |lacking|
    {
      got, ok := {}, true;
      KeysAreLowest(table[..size]);
      if size < ADVANCE_CACHE_LIMIT && table.Length - size < ADVANCE_GROWTH_HEADROOM {
        var wanted := size + ADVANCE_GROWTH_HEADROOM;
        var grown := Grow(if wanted < ADVANCE_CACHE_LIMIT then wanted else ADVANCE_CACHE_LIMIT);
      }
      if size >= ADVANCE_CACHE_LIMIT { return 0, got, ok; }
      var limit := if caps.on then bytes * 2 else bytes;
      if limit > ADVANCE_CACHE_LIMIT { limit := ADVANCE_CACHE_LIMIT; }
      if limit > INLINE_CODEPOINTS {
        var memory := card.Try();
        if !memory { return -1, got, false; }
      }
      OffersLength(words, caps);
      missed, got, ok := CollectAndFetch(words, limit, caps, includeSpace, includeHyphen);
    }
  }

  /** What a pass ends up with: the lowest of one part, and another part whole. */
  ghost predicate Picked(held: set<nat>, part: set<nat>, rest: set<nat>, limit: nat) {
    exists picked :: IsLowest(picked, part, limit) && held == picked + rest
  }

  lemma {:induction false} WantedCount(style: StyleFile, keys: set<nat>, pass: Pass, cps: seq<nat>)
    ensures |Wanted(style, keys, pass, cps)| <= |cps|
  {
    if cps != [] {
      var init, last := cps[..|cps| - 1], cps[|cps| - 1];
      WantedCount(style, keys, pass, init);
      assert cps == init + [last];
      assert Wanted(style, keys, pass, cps) <= Wanted(style, keys, pass, init) + {last};
      SubsetCount(Wanted(style, keys, pass, cps), Wanted(style, keys, pass, init) + {last});
    }
  }

  lemma {:induction false} WantedBoth(style: StyleFile, keys: set<nat>, pass: Pass, a: seq<nat>, b: seq<nat>)
    ensures Wanted(style, keys, pass, a + b) == Wanted(style, keys, pass, a) + Wanted(style, keys, pass, b)
    ensures Lacking(style, keys, a + b) == Lacking(style, keys, a) + Lacking(style, keys, b)
  {
  }

  lemma {:induction false} CountedIgnoresKeys(style: StyleFile, keys: set<nat>, others: set<nat>, cps: seq<nat>)
    ensures Wanted(style, keys, Count, cps) == Wanted(style, others, Count, cps)
  {
  }

  /** Whatever is cached resolves, so what lacks a glyph is not cached. */
  lemma {:induction false} KeysResolve(style: StyleFile, table: seq<AdvanceEntry>, cps: seq<nat>)
    requires AllRight(style, table)
    ensures Lacking(style, KeysOf(table), cps) == Wanted(style, KeysOf(table), Count, cps)
  {
    forall cp | cp in KeysOf(table) ensures Resolves(style, cp) {
      var e :| e in table && e.codepoint == cp;
      var i :| 0 <= i < |table| && table[i] == e;
    }
  }

  lemma {:induction false} PickedFetchable(style: StyleFile, keys: set<nat>, cps: seq<nat>, offers: seq<nat>,
                                           extras: seq<nat>, limit: nat)
    requires Distinct(cps)
    requires Picked(Elements(cps), Wanted(style, keys, Collect, offers), Wanted(style, keys, Collect, extras), limit)
    ensures Distinct(SortBy(cps, x => x)) && Elements(cps) <= Wanted(style, keys, Collect, offers + extras)
    ensures Fetchable(style, keys, SortBy(cps, x => x)) == Elements(cps)
    ensures Lacking(style, keys, SortBy(cps, x => x)) == {}
  {
    SortedAscends(cps);
    WantedBoth(style, keys, Collect, offers, extras);
    var r := SortBy(cps, x => x);
    forall cp | cp in r ensures cp !in keys && Resolves(style, cp) {
      assert cp in Elements(r) && cp in Elements(cps);
    }
    forall cp: nat ensures cp in Fetchable(style, keys, r) <==> cp in Elements(cps) {
      assert cp in Elements(r) <==> cp in Elements(cps);
    }
  }

  /** Merging the lowest collected keeps the same codepoints as merging all that were wanted. */
  lemma {:induction false} PickedLosesNothing(style: StyleFile, keys: set<nat>, kept: set<nat>, held: set<nat>,
                                              offers: seq<nat>, extras: seq<nat>, limit: nat)
    requires Picked(held, Wanted(style, keys, Collect, offers), Wanted(style, keys, Collect, extras), limit)
    requires |offers| <= limit || limit == ADVANCE_CACHE_LIMIT
    ensures IsLowest(kept, keys + held, ADVANCE_CACHE_LIMIT) <==>
      IsLowest(kept, keys + Wanted(style, keys, Collect, offers + extras), ADVANCE_CACHE_LIMIT)
  {
    var part, rest := Wanted(style, keys, Collect, offers), Wanted(style, keys, Collect, extras);
    var picked :| IsLowest(picked, part, limit) && held == picked + rest;
    WantedCount(style, keys, Collect, offers);
    WantedBoth(style, keys, Collect, offers, extras);
    LowestFirst(kept, keys, part, rest, picked, limit, ADVANCE_CACHE_LIMIT);
    assert keys + held == keys + picked + rest && keys + (part + rest) == keys + part + rest;
  }

  lemma {:induction false} CountOk(style: StyleFile, keys: set<nat>, lacking: seq<nat>, offers: seq<nat>,
                                   extras: seq<nat>, limit: nat)
    requires |offers| <= limit || limit == ADVANCE_CACHE_LIMIT
    requires Distinct(lacking)
    requires Picked(Elements(lacking), Wanted(style, keys, Count, offers), Wanted(style, keys, Count, extras), limit)
    ensures var all := Wanted(style, keys, Count, offers + extras);
            |all| <= ADVANCE_CACHE_LIMIT ==> |lacking| == |all|
  {
    var all := Wanted(style, keys, Count, offers + extras);
    var part, rest := Wanted(style, keys, Count, offers), Wanted(style, keys, Count, extras);
    if |all| <= ADVANCE_CACHE_LIMIT {
      WantedBoth(style, keys, Count, offers, extras);
      WantedCount(style, keys, Count, offers);
      SubsetCount(part, all);
      var picked :| IsLowest(picked, part, limit) && Elements(lacking) == picked + rest;
      SubsetCount(picked, part);
      ElementsCount(lacking);
    }
  }

  /** A word's offers are no more than its bytes, or twice as many with small caps. */
  lemma {:induction false} OffersLength(words: seq<seq<nat>>, caps: Caps)
    ensures |AllOffers(words, caps)| <= if caps.on then 2 * TotalLength(words) else TotalLength(words)
    ensures forall w :: 0 <= w < |words| ==> words[w] == [] || TotalLength(words) > 0
  {
    if words != [] {
      OffersLength(words[..|words| - 1], caps);
      WordLength(words[|words| - 1], caps);
      forall w | 0 <= w < |words| ensures words[w] == [] || TotalLength(words) > 0 {
        assert w < |words| - 1 ==> words[..|words| - 1][w] == words[w];
      }
    }
  }

  lemma {:induction false} WordLength(word: seq<nat>, caps: Caps)
    ensures |Offers(word, caps)| <= if caps.on then 2 * |word| else |word|
  {
    if word != [] {
      WordLength(word[..|word| - 1], caps);
    }
  }

  /** Every fetchable codepoint once, with the glyph it takes its advance from. */
  ghost predicate Resolved(style: StyleFile, keys: set<nat>, cps: seq<nat>, ms: seq<CpIdx>) {
    && DistinctBy(ms, SourceOf)
    && (forall k :: 0 <= k < |ms| ==> AdvanceIndex(style, ms[k].codepoint) == Some(ms[k].glyphIndex))
    && Sources(ms) == Fetchable(style, keys, cps)
  }

  lemma {:induction false} MergedCut(was: seq<AdvanceEntry>, added: seq<AdvanceEntry>, merged: nat)
    requires merged == if |was| + |added| > ADVANCE_CACHE_LIMIT then ADVANCE_CACHE_LIMIT else |was| + |added|
    ensures merged <= |Merge(was, added)| && Merge(was, added)[..merged] == Cut(Merge(was, added), ADVANCE_CACHE_LIMIT)
  {
  }

  lemma {:induction false} MergedRight(style: StyleFile, was: seq<AdvanceEntry>, added: seq<AdvanceEntry>,
                                       kept: seq<AdvanceEntry>)
    requires AllRight(style, was) && AllRight(style, added) && Apart(was, added)
    requires kept == Cut(Merge(was, added), ADVANCE_CACHE_LIMIT)
    ensures AllRight(style, kept) && IsLowest(KeysOf(kept), KeysOf(was) + KeysOf(added), ADVANCE_CACHE_LIMIT)
  {
    MergeKeepsLowest(was, added, ADVANCE_CACHE_LIMIT);
    forall i | 0 <= i < |kept| ensures Right(style, kept[i]) {
      assert kept[i] in was || kept[i] in added;
    }
  }

  /** One more codepoint looked at. */
  lemma {:induction false} ResolvedNext(style: StyleFile, keys: set<nat>, cps: seq<nat>, i: nat, ms: seq<CpIdx>)
    requires i < |cps| && Distinct(cps) && Resolved(style, keys, cps[..i], ms)
    ensures var cp := cps[i];
            if cp !in keys && Resolves(style, cp)
            then Resolved(style, keys, cps[..i + 1], ms + [CpIdx(cp, AdvanceIndex(style, cp).value)])
            else Resolved(style, keys, cps[..i + 1], ms)
  {
    var cp := cps[i];
    assert cps[..i + 1] == cps[..i] + [cp] && cp !in cps[..i];
    if cp !in keys && Resolves(style, cp) {
      var m := CpIdx(cp, AdvanceIndex(style, cp).value);
      forall k | 0 <= k < |ms| ensures SourceOf(ms[k]) != cp {
        assert ms[k].codepoint in Sources(ms);
      }
      assert Sources(ms + [m]) == Sources(ms) + {cp};
      assert Fetchable(style, keys, cps[..i + 1]) == Fetchable(style, keys, cps[..i]) + {cp};
    } else {
      assert Fetchable(style, keys, cps[..i + 1]) == Fetchable(style, keys, cps[..i]);
    }
  }

  /** The codepoints that can never be cached. */
  function Lacking(style: StyleFile, keys: set<nat>, cps: seq<nat>): set<nat> {
    set cp | cp in cps && cp !in keys && !Resolves(style, cp)
  }

  lemma {:induction false} LackingNext(style: StyleFile, keys: set<nat>, cps: seq<nat>, i: nat)
    requires i < |cps| && Distinct(cps)
    ensures |Lacking(style, keys, cps[..i + 1])|
         == |Lacking(style, keys, cps[..i])| + if cps[i] !in keys && !Resolves(style, cps[i]) then 1 else 0
  {
    var cp := cps[i];
    assert cps[..i + 1] == cps[..i] + [cp] && cp !in cps[..i];
    if cp !in keys && !Resolves(style, cp) {
      assert Lacking(style, keys, cps[..i + 1]) == Lacking(style, keys, cps[..i]) + {cp};
    } else {
      assert Lacking(style, keys, cps[..i + 1]) == Lacking(style, keys, cps[..i]);
    }
  }

  lemma {:induction false} KeysAreLowest(s: seq<AdvanceEntry>)
    requires InOrder(s) && |s| <= ADVANCE_CACHE_LIMIT
    ensures IsLowest(KeysOf(s), KeysOf(s) + {}, ADVANCE_CACHE_LIMIT)
  {
    KeysCount(s);
    assert KeysOf(s) + {} == KeysOf(s);
  }

  lemma {:induction false} NothingToFetch(style: StyleFile, keys: set<nat>, cps: seq<nat>, ms: seq<CpIdx>)
    requires Resolved(style, keys, cps, ms) && ms == []
    ensures Fetchable(style, keys, cps) == {}
  {
  }

  /** A record that could not be read is one of a codepoint to be fetched. */
  lemma {:induction false} ReadShort(style: StyleFile, keys: set<nat>, cps: seq<nat>, ms: seq<CpIdx>)
    requires Resolved(style, keys, cps, ms)
    ensures (exists k :: 0 <= k < |ms| && PastEnd(style, ms[k].codepoint)) ==> Short(style, Fetchable(style, keys, cps))
  {
    if k :| 0 <= k < |ms| && PastEnd(style, ms[k].codepoint) {
      assert ms[k].codepoint in Sources(ms);
    }
  }

  lemma {:induction false} SortedMappings(style: StyleFile, keys: set<nat>, cps: seq<nat>, ms: seq<CpIdx>)
    requires Resolved(style, keys, cps, ms)
    ensures Resolved(style, keys, cps, SortBy(ms, GlyphOf))
  {
    var r := SortBy(ms, GlyphOf);
    SortByDistinct(ms, GlyphOf, SourceOf);
    forall m: CpIdx ensures m in r <==> m in ms {
      SortByHas(ms, GlyphOf, m);
    }
    forall k | 0 <= k < |r| ensures AdvanceIndex(style, r[k].codepoint) == Some(r[k].glyphIndex) {
      assert r[k] in r;
    }
  }

  /** What was read, sorted by codepoint, is ready to be merged. */
  lemma {:induction false} StagedOk(style: StyleFile, was: seq<AdvanceEntry>, cps: seq<nat>, ms: seq<CpIdx>,
                                    staged: seq<AdvanceEntry>, complete: bool)
    requires Resolved(style, KeysOf(was), cps, ms) && |staged| <= |ms| && (complete ==> |staged| == |ms|)
    requires forall k :: 0 <= k < |staged| ==> staged[k].codepoint == ms[k].codepoint && Right(style, staged[k])
    ensures var s := SortBy(staged, CodepointOf);
            && AllRight(style, s) && Apart(was, s) && KeysOf(s) <= Fetchable(style, KeysOf(was), cps)
            && (complete ==> KeysOf(s) == Fetchable(style, KeysOf(was), cps))
  {
    var s := SortBy(staged, CodepointOf);
    SortByOk(staged, CodepointOf);
    forall i, j | 0 <= i < j < |staged| ensures CodepointOf(staged[i]) != CodepointOf(staged[j]) {
      assert SourceOf(ms[i]) != SourceOf(ms[j]);
    }
    SortByDistinct(staged, CodepointOf, CodepointOf);
    forall i, j | 0 <= i < j < |s| ensures s[i].codepoint < s[j].codepoint {
      assert CodepointOf(s[i]) <= CodepointOf(s[j]);
    }
    forall e: AdvanceEntry ensures e in s <==> e in staged {
      SortByHas(staged, CodepointOf, e);
    }
    forall i | 0 <= i < |s| ensures Right(style, s[i]) && s[i].codepoint in Fetchable(style, KeysOf(was), cps) {
      assert s[i] in s;
      var k :| 0 <= k < |staged| && staged[k] == s[i];
      assert ms[k].codepoint in Sources(ms);
    }
    forall i, j | 0 <= i < |was| && 0 <= j < |s| ensures was[i].codepoint != s[j].codepoint {
      assert was[i].codepoint in KeysOf(was);
    }
    if complete {
      forall cp | cp in Sources(ms) ensures cp in KeysOf(s) {
        var m :| m in ms && m.codepoint == cp;
        var k :| 0 <= k < |ms| && ms[k] == m;
        assert staged[k] in s;
      }
    }
  }
}
