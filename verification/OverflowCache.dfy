/** Glyphs loaded on demand, evicted least recently used first (SdCardFont::onGlyphMiss). */
module OverflowCache {
  import opened Bytes
  import opened Card
  import opened FontData
  import opened Intervals
  import opened SdStyle

  const MAX_STYLES := 4
  const OVERFLOW_CAPACITY := 8
  const READER_OVERFLOW_CAPACITY := 64

  datatype Key = Key(codepoint: nat, styleIdx: nat)

  datatype OverflowEntry = OverflowEntry(glyph: EpdGlyph, bitmap: Data, codepoint: nat, styleIdx: nat, lastUsed: nat) {
    function KeyOf(): Key {
      Key(codepoint, styleIdx)
    }
  }

  const EMPTY_ENTRY := OverflowEntry(EMPTY_GLYPH, [], 0, 0, 0)

  // --- The list it refines: keys, the longest unused first ---

  function PositionOf(lru: seq<Key>, key: Key): (p: nat)
    ensures p <= |lru| && (p < |lru| <==> key in lru) && (p < |lru| ==> lru[p] == key)
  {
    if lru == [] || lru[0] == key then 0 else 1 + PositionOf(lru[1..], key)
  }

  /** A use moves a key to the end; a new one pushes the first out when the list is full. */
  function Used(lru: seq<Key>, key: Key, capacity: nat): seq<Key> {
    var p := PositionOf(lru, key);
    if p < |lru| then Without(lru, p) + [key]
    else if |lru| == capacity > 0 then lru[1..] + [key]
    else lru + [key]
  }

  predicate Distinct(lru: seq<Key>) {
    forall i, j :: 0 <= i < j < |lru| ==> lru[i] != lru[j]
  }

  /** The key just used is the last to go: with room for two it is never the next one out. */
  lemma {:induction false} UsedLast(lru: seq<Key>, key: Key, capacity: nat)
    requires Distinct(lru) && |lru| <= capacity && capacity >= 2
    ensures Distinct(Used(lru, key, capacity)) && |Used(lru, key, capacity)| <= capacity
    ensures var r := Used(lru, key, capacity); r[|r| - 1] == key && (|r| == capacity ==> r[0] != key)
  {
    var p := PositionOf(lru, key);
    if p < |lru| {
      assert forall i :: 0 <= i < |Without(lru, p)| ==> Without(lru, p)[i] == lru[if i < p then i else i + 1];
    }
  }

  // --- The slots ---

  /** What a style's file gives for a codepoint. */
  predicate FromFile(styles: seq<Option<StyleFile>>, e: OverflowEntry) {
    && e.styleIdx < |styles| && styles[e.styleIdx].Some?
    && var style := styles[e.styleIdx].value;
       && GlyphIndex(style, e.codepoint).Some? && GlyphIndex(style, e.codepoint).value < |style.glyphs|
       && e.glyph == FileGlyph(style, GlyphIndex(style, e.codepoint).value)
       && e.bitmap == FileBitmap(style, GlyphIndex(style, e.codepoint).value)
  }

  /** Whether the font has the style, and its file a record for the codepoint. */
  predicate InFile(styles: seq<Option<StyleFile>>, codepoint: nat, styleIdx: nat) {
    && styleIdx < |styles| && styles[styleIdx].Some?
    && var style := styles[styleIdx].value;
       GlyphIndex(style, codepoint).Some? && GlyphIndex(style, codepoint).value < |style.glyphs|
  }

  predicate Listed(order: seq<nat>, slot: nat) {
    slot in order
  }

  /** `order` lists the filled slots by their stamps. */
  ghost predicate InOrder(entries: seq<OverflowEntry>, order: seq<nat>, clock: nat) {
    && |order| <= |entries| && (forall a :: 0 <= a < |order| ==> order[a] < |order|)
    && (forall i :: 0 <= i < |order| ==> Listed(order, i))
    && (forall a, b :: 0 <= a < b < |order| ==> entries[order[a]].lastUsed < entries[order[b]].lastUsed)
    && forall i :: 0 <= i < |order| ==> entries[i].lastUsed <= clock
  }

  function KeysIn(entries: seq<OverflowEntry>, order: seq<nat>): (keys: seq<Key>)
    requires forall a :: 0 <= a < |order| ==> order[a] < |entries|
    ensures |keys| == |order|
  {
    seq(|order|, a requires 0 <= a < |order| => entries[order[a]].KeyOf())
  }

  lemma {:induction false} OldestFirst(entries: seq<OverflowEntry>, order: seq<nat>, clock: nat, slot: nat)
    requires InOrder(entries, order, clock) && slot < |order|
    ensures slot == order[0] || entries[order[0]].lastUsed < entries[slot].lastUsed
  {
    assert Listed(order, slot);
    var a :| 0 <= a < |order| && order[a] == slot;
  }

  lemma {:induction false} NotAmong(entries: seq<OverflowEntry>, order: seq<nat>, clock: nat, key: Key)
    requires InOrder(entries, order, clock) && forall i :: 0 <= i < |order| ==> entries[i].KeyOf() != key
    ensures key !in KeysIn(entries, order)
  {
  }

  /** Stamping slot `slot` moves it to the end of the order. */
  lemma {:induction false} Stamped(entries: seq<OverflowEntry>, order: seq<nat>, p: nat, e: OverflowEntry, clock: nat)
    requires InOrder(entries, order, clock) && p < |order| && e.lastUsed == clock + 1
    ensures var slot, next := order[p], Without(order, p) + [order[p]];
            && InOrder(entries[slot := e], next, clock + 1)
            && KeysIn(entries[slot := e], next) == Without(KeysIn(entries, order), p) + [e.KeyOf()]
  {
    var slot, next := order[p], Without(order, p) + [order[p]];
    var after := entries[slot := e];
    assert forall a :: 0 <= a < |order| && a != p ==> order[a] != slot;
    forall a | 0 <= a < |order| - 1 ensures next[a] == order[if a < p then a else a + 1] && next[a] != slot {
    }
    forall i | 0 <= i < |order| ensures Listed(next, i) {
      assert Listed(order, i);
      var a :| 0 <= a < |order| && order[a] == i;
      assert a != p ==> next[if a < p then a else a - 1] == i;
      assert next[|order| - 1] == slot;
    }
  }

  /** Filling the next free slot puts it at the end of the order. */
  lemma {:induction false} Filled(entries: seq<OverflowEntry>, order: seq<nat>, e: OverflowEntry, clock: nat)
    requires InOrder(entries, order, clock) && |order| < |entries| && e.lastUsed == clock + 1
    ensures InOrder(entries[|order| := e], order + [|order|], clock + 1)
    ensures KeysIn(entries[|order| := e], order + [|order|]) == KeysIn(entries, order) + [e.KeyOf()]
  {
    var next := order + [|order|];
    forall i | 0 <= i < |next| ensures Listed(next, i) {
      assert i < |order| ==> Listed(order, i);
      assert next[|order|] == |order|;
    }
  }

  /** The filled slots hold what the file gives for distinct keys. */
  ghost predicate SlotsOk(styles: seq<Option<StyleFile>>, entries: seq<OverflowEntry>, order: seq<nat>, clock: nat) {
    && InOrder(entries, order, clock) && (forall i :: 0 <= i < |order| ==> FromFile(styles, entries[i]))
    && Distinct(KeysIn(entries, order))
  }

  lemma {:induction false} TouchedOk(styles: seq<Option<StyleFile>>, entries: seq<OverflowEntry>, order: seq<nat>,
                                     clock: nat, slot: nat, after: seq<OverflowEntry>) returns (next: seq<nat>)
    requires SlotsOk(styles, entries, order, clock) && |entries| >= 2 && slot < |order|
    requires after == entries[slot := entries[slot].(lastUsed := clock + 1)]
    ensures SlotsOk(styles, after, next, clock + 1) && |next| == |order|
    ensures KeysIn(after, next) == Used(KeysIn(entries, order), after[slot].KeyOf(), |entries|)
  {
    assert Listed(order, slot);
    var p :| 0 <= p < |order| && order[p] == slot;
    next := Without(order, p) + [slot];
    Stamped(entries, order, p, after[slot], clock);
    SamePosition(KeysIn(entries, order), p, after[slot].KeyOf());
    UsedLast(KeysIn(entries, order), after[slot].KeyOf(), |entries|);
  }

  lemma {:induction false} CommittedOk(styles: seq<Option<StyleFile>>, entries: seq<OverflowEntry>, order: seq<nat>,
                                       clock: nat, slot: nat, e: OverflowEntry, after: seq<OverflowEntry>)
    returns (next: seq<nat>)
    requires SlotsOk(styles, entries, order, clock) && |entries| >= 2 && FromFile(styles, e) && e.lastUsed == clock + 1
    requires e.KeyOf() !in KeysIn(entries, order)
    requires slot == (if |order| < |entries| then |order| else order[0]) && after == entries[slot := e]
    ensures SlotsOk(styles, after, next, clock + 1) && |next| == if |order| < |entries| then |order| + 1 else |order|
    ensures KeysIn(after, next) == Used(KeysIn(entries, order), e.KeyOf(), |entries|)
  {
    UsedLast(KeysIn(entries, order), e.KeyOf(), |entries|);
    if |order| < |entries| {
      next := order + [slot];
      Filled(entries, order, e, clock);
    } else {
      next := Without(order, 0) + [slot];
      Stamped(entries, order, 0, e, clock);
      assert Without(KeysIn(entries, order), 0) == KeysIn(entries, order)[1..];
    }
  }

  lemma {:induction false} SamePosition(keys: seq<Key>, p: nat, key: Key)
    requires Distinct(keys) && p < |keys| && keys[p] == key
    ensures PositionOf(keys, key) == p
  {
    var q := PositionOf(keys, key);
    assert keys[q] == keys[p];
  }

  class Overflow {
    const card: Device
    /** The styles of the loaded font. */
    const styles: seq<Option<StyleFile>>
    /** None until the first miss allocates the slots. */
    var overflow: Option<seq<OverflowEntry>>
    var overflowCapacity: nat
    var overflowCount: nat
    var lruClock: nat
    /** The filled slots, the longest unused first. */
    ghost var order: seq<nat>

    ghost predicate Valid()
      reads this
    {
      && |styles| == MAX_STYLES
      && (forall s :: 0 <= s < MAX_STYLES && styles[s].Some? ==> Ascending(styles[s].value.intervals))
      && overflowCapacity >= 2 && overflowCount == |order|
      && (if overflow.None? then overflowCount == 0 else
            |overflow.value| == overflowCapacity && SlotsOk(styles, overflow.value, order, lruClock))
    }

    ghost function Keys(): seq<Key>
      requires Valid()
      reads this
    {
      if overflow.None? then [] else KeysIn(overflow.value, order)
    }

    constructor (card: Device, styles: seq<Option<StyleFile>>)
      requires |styles| == MAX_STYLES
      requires forall s :: 0 <= s < MAX_STYLES && styles[s].Some? ==> Ascending(styles[s].value.intervals)
      ensures Valid() && Keys() == [] && overflowCapacity == OVERFLOW_CAPACITY
    {
      this.card, this.styles := card, styles;
      overflow, overflowCapacity, overflowCount, lruClock, order := None, OVERFLOW_CAPACITY, 0, 0, [];
    }

    method ClearOverflow()
      requires Valid()
      modifies this
      ensures Valid() && Keys() == [] && overflowCapacity == old(overflowCapacity)
      ensures overflow.Some? ==> forall i :: 0 <= i < |overflow.value| ==> overflow.value[i] == EMPTY_ENTRY
    {
      if overflow.None? { return; }
      overflow := Some(seq(overflowCapacity, _ => EMPTY_ENTRY));
      overflowCount, lruClock, order := 0, 0, [];
    }

    /** The reader's face gets room for a whole alphabet. */
    method UseReaderOverflowCapacity()
      requires Valid()
      modifies this
      ensures Valid() && Keys() == [] && overflowCapacity == READER_OVERFLOW_CAPACITY
    {
      ClearOverflow();
      overflow, overflowCapacity := None, READER_OVERFLOW_CAPACITY;
    }

    method Find(codepoint: nat, styleIdx: nat) returns (slot: nat)
      requires Valid()
      ensures slot <= overflowCount
      ensures slot < overflowCount ==> overflow.Some? && overflow.value[slot].KeyOf() == Key(codepoint, styleIdx)
      ensures slot == overflowCount ==> Key(codepoint, styleIdx) !in Keys()
    {
      slot := 0;
      while slot < overflowCount
        invariant slot <= overflowCount
        invariant overflow.Some? ==> forall i :: 0 <= i < slot ==> overflow.value[i].KeyOf() != Key(codepoint, styleIdx)
      {
        if overflow.value[slot].codepoint == codepoint && overflow.value[slot].styleIdx == styleIdx { return; }
        slot := slot + 1;
      }
      if overflow.Some? {
        NotAmong(overflow.value, order, lruClock, Key(codepoint, styleIdx));
      }
    }

    /** The slot to load into: the next empty one, else the one not used for longest. */
    method PickSlot() returns (slot: nat)
      requires Valid() && overflow.Some?
      ensures slot == if overflowCount < overflowCapacity then overflowCount else order[0]
    {
      if overflowCount != overflowCapacity { return overflowCount; }
      slot := LeastRecent(overflow.value);
      OldestFirst(overflow.value, order, lruClock, slot);
      assert overflow.value[slot].lastUsed <= overflow.value[order[0]].lastUsed;
    }

    static method LeastRecent(entries: seq<OverflowEntry>) returns (slot: nat)
      requires |entries| > 0
      ensures slot < |entries| && forall k :: 0 <= k < |entries| ==> entries[slot].lastUsed <= entries[k].lastUsed
    {
      slot := 0;
      var i: nat := 1;
      while i < |entries|
        invariant 1 <= i <= |entries| && slot < i
        invariant forall k :: 0 <= k < i ==> entries[slot].lastUsed <= entries[k].lastUsed
      {
        if entries[i].lastUsed < entries[slot].lastUsed {
          slot := i;
        }
        i := i + 1;
      }
    }

    /** Reads glyph `i` and its bitmap into temporaries; any step may fail. */
    method Read(style: StyleFile, i: nat) returns (glyph: EpdGlyph, bitmap: Data, ok: bool)
      modifies card`faults
      ensures card.faults >= old(card.faults) && (!ok ==> card.faults > old(card.faults) || i >= |style.glyphs|)
      ensures ok ==> i < |style.glyphs| && glyph == FileGlyph(style, i) && bitmap == FileBitmap(style, i)
    {
      glyph, bitmap := EMPTY_GLYPH, [];
      var opens := card.Try();
      if !opens { return glyph, bitmap, false; }
      var readable := card.Try();
      if !readable || i >= |style.glyphs| { return glyph, bitmap, false; }
      glyph := Checked(style, style.glyphs[i]);
      if glyph.dataLength > 0 {
        var memory := card.Try();
        if !memory { return glyph, bitmap, false; }
        var bitmapReadable := card.Try();
        if !bitmapReadable { return glyph, bitmap, false; }
        var at := style.bitmapFileOffset + glyph.dataOffset;
        bitmap := style.bytes[at..at + glyph.dataLength];
      }
      ok := true;
    }

    /** A hit: stamps the slot. */
    method Touch(slot: nat)
      requires Valid() && slot < overflowCount && overflow.Some?
      modifies this`overflow, this`lruClock, this`order
      ensures Valid() && overflow.Some?
      ensures overflow.value[slot] == old(overflow.value)[slot].(lastUsed := lruClock)
      ensures Keys() == Used(old(Keys()), overflow.value[slot].KeyOf(), overflowCapacity)
    {
      ghost var keys := Keys();
      var after := overflow.value[slot := overflow.value[slot].(lastUsed := lruClock + 1)];
      order := TouchedOk(styles, overflow.value, order, lruClock, slot, after);
      lruClock := lruClock + 1;
      overflow := Some(after);
    }

    /** Commits a loaded glyph to its slot. */
    method Commit(slot: nat, e: OverflowEntry)
      requires Valid() && overflow.Some? && FromFile(styles, e) && e.KeyOf() !in Keys() && e.lastUsed == lruClock + 1
      requires slot == if overflowCount < overflowCapacity then overflowCount else order[0]
      modifies this`overflow, this`lruClock, this`order, this`overflowCount
      ensures Valid() && overflow.Some? && slot < overflowCount && overflow.value[slot] == e
      ensures Keys() == Used(old(Keys()), e.KeyOf(), overflowCapacity)
    {
      ghost var was, keys := overflow.value, Keys();
      var after := overflow.value[slot := e];
      ghost var next := CommittedOk(styles, was, order, lruClock, slot, e, after);
      assert KeysIn(after, next) == Used(keys, e.KeyOf(), overflowCapacity);
      if overflowCount != overflowCapacity {
        overflowCount := overflowCount + 1;
      }
      overflow, order, lruClock := Some(after), next, lruClock + 1;
    }

    /** The glyph of a codepoint that the page's own tables lack: cached, or loaded into the cache. */
    method OnGlyphMiss(codepoint: nat, styleIdx: nat) returns (slot: Option<nat>)
      requires Valid()
      modifies this`overflow, this`lruClock, this`order, this`overflowCount, card`faults
      ensures Valid() && card.faults >= old(card.faults)
      ensures slot.None? ==> card.faults > old(card.faults) || !InFile(styles, codepoint, styleIdx)
      ensures slot.Some? ==>
        overflow.Some? && slot.value < overflowCount && FromFile(styles, overflow.value[slot.value])
      ensures slot.Some? ==> overflow.value[slot.value].KeyOf() == Key(codepoint, styleIdx)
      ensures slot.Some? ==> Keys() == Used(old(Keys()), Key(codepoint, styleIdx), overflowCapacity)
      ensures slot.None? ==>
        && Keys() == old(Keys()) && Key(codepoint, styleIdx) !in Keys()
        && (old(overflow).Some? ==> overflow == old(overflow))
    {
      if styleIdx >= MAX_STYLES || styles[styleIdx].None? {
        NeverCached(codepoint, styleIdx);
        return None;
      }
      var found := Find(codepoint, styleIdx);
      if found < overflowCount {
        Touch(found);
        return Some(found);
      }
      var style := styles[styleIdx].value;
      var index := FindGlyphIndex(style.intervals, codepoint);
      if index.None? { return None; }
      if overflow.None? {
        var memory := card.Try();
        if !memory { return None; }
        overflow := Some(seq(overflowCapacity, _ => EMPTY_ENTRY));
      }
      var target := PickSlot();
      var glyph, bitmap, ok := Read(style, index.value);
      if !ok { return None; }
      Commit(target, OverflowEntry(glyph, bitmap, codepoint, styleIdx, lruClock + 1));
      return Some(target);
    }

    lemma {:induction false} NeverCached(codepoint: nat, styleIdx: nat)
      requires Valid() && (styleIdx >= MAX_STYLES || styles[styleIdx].None?)
      ensures Key(codepoint, styleIdx) !in Keys()
    {
      forall a | 0 <= a < |Keys()| ensures Keys()[a] != Key(codepoint, styleIdx) {
        assert FromFile(styles, overflow.value[order[a]]);
      }
    }
  }
}
