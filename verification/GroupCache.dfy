/** The records of the decompressor's group cache (lib/EpdFont/FontDecompressor.h) and what holds of them. */
module GroupCache {
  import opened Bytes
  import opened Repacking
  import opened FontData

  const MAX_GROUP_SLOTS := 3
  const GROUP_CACHE_BUDGET_BYTES := 57344
  const NO_GROUP := 0xFFFF

  /** A slot of the cache; the length of `buffer` is its capacity. */
  datatype GroupSlot = GroupSlot(
    fontData: EpdFontData?, groupIndex: nat, firstGlyphIndex: nat, buffer: Data, groupBytes: nat,
    offsets: seq<nat>, hasOffsets: bool, lastUsedTick: nat)
  {
    predicate Occupied() {
      fontData != null
    }

    predicate Is(id: GroupId) {
      fontData == id.font && groupIndex == id.group
    }
  }

  datatype GroupId = GroupId(font: EpdFontData, group: nat)

  const EMPTY_SLOT := GroupSlot(null, NO_GROUP, 0, [], 0, [], false, 0)

  type Slots = s: seq<GroupSlot> | |s| == MAX_GROUP_SLOTS witness [EMPTY_SLOT, EMPTY_SLOT, EMPTY_SLOT]

  /** The first `n` entries of the table say where the glyphs of the group start. */
  ghost predicate TableUpTo(table: seq<nat>, font: EpdFontData, g: nat, n: nat)
    requires Grouped(font) && font.glyphToGroup.None? && g < |font.groups| && n <= font.groups[g].glyphCount
  {
    && n <= |table|
    && forall l :: 0 <= l < n ==> table[l] == AlignedOffset(font, g, font.groups[g].firstGlyphIndex + l)
  }

  lemma {:induction false} TableNext(table: seq<nat>, font: EpdFontData, g: nat, n: nat, off: nat)
    requires Grouped(font) && font.glyphToGroup.None? && g < |font.groups| && n < font.groups[g].glyphCount
    requires n < |table| && TableUpTo(table, font, g, n)
    requires off == AlignedOffset(font, g, font.groups[g].firstGlyphIndex + n)
    ensures TableUpTo(table[n := off], font, g, n + 1) && font.groups[g].firstGlyphIndex + n < |font.glyph|
    ensures off + BytesOf(font.glyph[font.groups[g].firstGlyphIndex + n])
         == AlignedOffset(font, g, font.groups[g].firstGlyphIndex + n + 1)
  {
    NextOffset(font, g, font.groups[g].firstGlyphIndex + n);
  }

  /** Entry `l` of the offset table is where glyph `l` of the group starts. */
  ghost predicate OffsetsOf(slot: GroupSlot, font: EpdFontData)
    requires Compressed(font) && slot.groupIndex < |font.groups|
  {
    var group := font.groups[slot.groupIndex];
    && font.glyphToGroup.None? && slot.firstGlyphIndex == group.firstGlyphIndex
    && TableUpTo(slot.offsets, font, slot.groupIndex, group.glyphCount)
  }

  /** An occupied slot holds its group inflated, and if it has an offset table the right one. */
  ghost predicate SlotOk(inflate: Inflate, slot: GroupSlot) {
    slot.Occupied() ==>
      && Compressed(slot.fontData) && slot.groupIndex < |slot.fontData.groups|
      && slot.groupBytes <= |slot.buffer|
      && Inflated(inflate, slot.fontData, slot.groupIndex) == Some(slot.buffer[..slot.groupBytes])
      && (slot.hasOffsets ==> OffsetsOf(slot, slot.fontData))
  }

  ghost predicate NoDuplicates(slots: Slots) {
    forall i, j :: 0 <= i < j < MAX_GROUP_SLOTS && slots[i].Occupied() && slots[j].Occupied() ==>
      slots[i].fontData != slots[j].fontData || slots[i].groupIndex != slots[j].groupIndex
  }

  /** Capacity of slot `i`, unless it is empty or the target. */
  function OtherBytesAt(slots: Slots, target: nat, i: nat): nat
    requires i < MAX_GROUP_SLOTS
  {
    if i != target && slots[i].Occupied() then |slots[i].buffer| else 0
  }

  function OtherBytes(slots: Slots, target: nat): nat {
    OtherBytesAt(slots, target, 0) + OtherBytesAt(slots, target, 1) + OtherBytesAt(slots, target, 2)
  }

  predicate Alone(slots: Slots, target: nat) {
    forall i :: 0 <= i < MAX_GROUP_SLOTS && i != target ==> !slots[i].Occupied()
  }

  /** All occupied buffers together stay in the budget, unless only one is occupied. */
  ghost predicate InBudget(slots: Slots) {
    OtherBytes(slots, MAX_GROUP_SLOTS) <= GROUP_CACHE_BUDGET_BYTES
    || exists t :: 0 <= t < MAX_GROUP_SLOTS && Alone(slots, t)
  }

  /** On the fields of the three slots: their buffers take 57344 bytes at most, or two of them hold nothing. */
  lemma {:induction false} BudgetIs(slots: Slots)
    ensures InBudget(slots) <==>
            || (if slots[0].fontData == null then 0 else |slots[0].buffer|)
               + (if slots[1].fontData == null then 0 else |slots[1].buffer|)
               + (if slots[2].fontData == null then 0 else |slots[2].buffer|) <= 57344
            || (slots[0].fontData == null && slots[1].fontData == null)
            || (slots[0].fontData == null && slots[2].fontData == null)
            || (slots[1].fontData == null && slots[2].fontData == null)
  {
    if slots[1].fontData == null && slots[2].fontData == null {
      assert Alone(slots, 0);
    }
    if slots[0].fontData == null && slots[2].fontData == null {
      assert Alone(slots, 1);
    }
    if slots[0].fontData == null && slots[1].fontData == null {
      assert Alone(slots, 2);
    }
  }

  ghost predicate TicksUpTo(slots: Slots, tick: nat) {
    forall i :: 0 <= i < MAX_GROUP_SLOTS ==> slots[i].lastUsedTick <= tick
  }

  // --- Choosing a slot ---

  /** The slot to fill: the first empty one, else the one not used for longest. */
  ghost predicate IsTarget(slots: Slots, t: nat) {
    && t < MAX_GROUP_SLOTS
    && (if slots[t].Occupied()
        then forall i :: 0 <= i < MAX_GROUP_SLOTS ==>
            slots[i].Occupied() && slots[t].lastUsedTick <= slots[i].lastUsedTick
        else forall i :: 0 <= i < t ==> slots[i].Occupied())
  }

  /** The slot to evict: occupied, not the target, and not used for longest among those. */
  ghost predicate IsVictim(slots: Slots, target: nat, v: nat) {
    && v < MAX_GROUP_SLOTS && v != target && slots[v].Occupied()
    && forall i :: 0 <= i < MAX_GROUP_SLOTS && i != target && slots[i].Occupied() ==>
         slots[v].lastUsedTick <= slots[i].lastUsedTick
  }

  /** `after` is `before` once others than the target were evicted, longest unused first and only as needed. */
  ghost predicate Trimmed(before: Slots, after: Slots, target: nat, needed: nat) {
    && (forall i :: 0 <= i < MAX_GROUP_SLOTS ==>
          after[i] == before[i] || (i != target && before[i].Occupied() && after[i] == EMPTY_SLOT))
    && (OtherBytes(after, target) + needed <= GROUP_CACHE_BUDGET_BYTES || Alone(after, target))
    && (forall i, j :: 0 <= i < MAX_GROUP_SLOTS && 0 <= j < MAX_GROUP_SLOTS && j != target
                       && after[i] != before[i] && after[j].Occupied() ==>
          before[i].lastUsedTick <= before[j].lastUsedTick)
    && (OtherBytes(before, target) + needed <= GROUP_CACHE_BUDGET_BYTES ==> after == before)
  }

  // --- The first requests after a clear ---

  function SizeOf(id: GroupId): nat {
    if id.group < |id.font.groups| then id.font.groups[id.group].uncompressedSize else 0
  }

  function TotalSize(ids: seq<GroupId>): nat {
    if ids == [] then 0 else TotalSize(ids[..|ids| - 1]) + SizeOf(ids[|ids| - 1])
  }

  /** At most as many groups as slots, which together fit the budget. */
  predicate FitTogether(ids: seq<GroupId>) {
    |ids| <= MAX_GROUP_SLOTS && TotalSize(ids) <= GROUP_CACHE_BUDGET_BYTES
  }

  /** Slot `i` holds the `i`-th group ever requested, and the slots after the last are as cleared. */
  ghost predicate HoldsInOrder(slots: Slots, order: seq<GroupId>) {
    && |order| <= MAX_GROUP_SLOTS
    && (forall i :: 0 <= i < |order| ==> slots[i].Is(order[i]) && |slots[i].buffer| == SizeOf(order[i]))
    && (forall i :: |order| <= i < MAX_GROUP_SLOTS ==> slots[i] == EMPTY_SLOT)
  }

  /** As long as the requested groups fit together and nothing failed, each was inflated once, when first requested. */
  ghost predicate Warm(slots: Slots, order: seq<GroupId>, inflations: seq<GroupId>, faults: nat) {
    faults == 0 && FitTogether(order) ==> HoldsInOrder(slots, order) && inflations == order
  }

  function Requested(order: seq<GroupId>, id: GroupId): seq<GroupId> {
    if id in order then order else order + [id]
  }

  lemma {:induction false} FitsBefore(order: seq<GroupId>, id: GroupId)
    requires FitTogether(order + [id])
    ensures FitTogether(order) && TotalSize(order) + SizeOf(id) <= GROUP_CACHE_BUDGET_BYTES
  {
    assert (order + [id])[..|order|] == order;
  }

  /** While the groups fit together, a new one goes to the next cleared slot and evicts nothing. */
  lemma {:induction false} NextSlotIsFree(slots: Slots, order: seq<GroupId>, id: GroupId, t: nat)
    requires FitTogether(order + [id]) && HoldsInOrder(slots, order) && IsTarget(slots, t)
    ensures t == |order| && slots[t] == EMPTY_SLOT
    ensures OtherBytes(slots, t) + SizeOf(id) <= GROUP_CACHE_BUDGET_BYTES
  {
    FitsBefore(order, id);
    assert |order + [id]| == |order| + 1;
    assert !slots[|order|].Occupied();
    assert forall i :: 0 <= i < |order| ==> slots[i].Occupied();
    if |order| == 1 {
      assert TotalSize(order) == TotalSize([]) + SizeOf(order[0]) by { assert order[..0] == []; }
    } else if |order| == 2 {
      assert TotalSize(order[..1]) == SizeOf(order[0]) by { assert order[..1][..0] == []; }
      assert TotalSize(order) == SizeOf(order[0]) + SizeOf(order[1]);
    }
  }

  // --- Filling a slot ---

  /** What holds of the cache between calls. */
  ghost predicate SlotsOk(inflate: Inflate, slots: Slots, tick: nat) {
    && (forall i :: 0 <= i < MAX_GROUP_SLOTS ==> SlotOk(inflate, slots[i]))
    && NoDuplicates(slots) && InBudget(slots) && TicksUpTo(slots, tick)
  }

  predicate NotResident(slots: Slots, id: GroupId) {
    forall i :: 0 <= i < MAX_GROUP_SLOTS ==> !slots[i].Is(id)
  }

  function Max(a: nat, b: nat): nat {
    if a > b then a else b
  }

  /** The target before it is filled: no group, but its buffer and offset table are kept. */
  function Vacated(slot: GroupSlot): GroupSlot {
    slot.(fontData := null, groupIndex := NO_GROUP, groupBytes := 0)
  }

  lemma {:induction false} TrimKeeps(inflate: Inflate, before: Slots, after: Slots, t: nat, needed: nat, tick: nat,
                                     id: GroupId)
    requires SlotsOk(inflate, before, tick) && NotResident(before, id) && t < MAX_GROUP_SLOTS
    requires Trimmed(before, after, t, needed)
    ensures (forall i :: 0 <= i < MAX_GROUP_SLOTS ==> SlotOk(inflate, after[i]))
    ensures NoDuplicates(after) && TicksUpTo(after, tick) && NotResident(after, id)
  {
  }

  lemma {:induction false} VacatedOk(inflate: Inflate, slots: Slots, t: nat, needed: nat, tick: nat, slot: GroupSlot)
    requires t < MAX_GROUP_SLOTS && !slot.Occupied() && slot.lastUsedTick <= tick
    requires (forall i :: 0 <= i < MAX_GROUP_SLOTS ==> SlotOk(inflate, slots[i])) && NoDuplicates(slots)
    requires TicksUpTo(slots, tick)
    requires OtherBytes(slots, t) + needed <= GROUP_CACHE_BUDGET_BYTES || Alone(slots, t)
    ensures SlotsOk(inflate, slots[t := slot], tick)
  {
    var after := slots[t := slot];
    if Alone(slots, t) {
      assert Alone(after, t);
    } else {
      assert OtherBytes(after, MAX_GROUP_SLOTS) == OtherBytes(slots, t);
    }
  }

  lemma {:induction false} FilledOk(inflate: Inflate, slots: Slots, t: nat, tick: nat, slot: GroupSlot, id: GroupId)
    requires t < MAX_GROUP_SLOTS && slot.Is(id) && SlotOk(inflate, slot) && slot.lastUsedTick <= tick
    requires (forall i :: 0 <= i < MAX_GROUP_SLOTS ==> SlotOk(inflate, slots[i])) && NoDuplicates(slots)
    requires TicksUpTo(slots, tick)
    requires forall i :: 0 <= i < MAX_GROUP_SLOTS && i != t ==> !slots[i].Is(id)
    requires OtherBytes(slots, t) + |slot.buffer| <= GROUP_CACHE_BUDGET_BYTES || Alone(slots, t)
    ensures SlotsOk(inflate, slots[t := slot], tick)
  {
    var after := slots[t := slot];
    if Alone(slots, t) {
      assert Alone(after, t);
    } else {
      assert OtherBytes(after, MAX_GROUP_SLOTS) == OtherBytes(slots, t) + |slot.buffer|;
    }
  }

  /** A group inflated into a vacated target. */
  lemma {:induction false} FilledSlotOk(inflate: Inflate, id: GroupId, slot: GroupSlot)
    requires Compressed(id.font) && id.group < |id.font.groups| && slot.Is(id)
    requires slot.groupBytes <= |slot.buffer|
    requires Inflated(inflate, id.font, id.group) == Some(slot.buffer[..slot.groupBytes])
    requires slot.hasOffsets ==> OffsetsOf(slot, id.font)
    ensures SlotOk(inflate, slot)
  {
  }

  /** What FillSlot made of the target. */
  ghost predicate FillResult(inflate: Inflate, vacant: GroupSlot, slot: GroupSlot, id: GroupId, ok: bool) {
    && slot.lastUsedTick == vacant.lastUsedTick
    && if ok then slot.Is(id) && SlotOk(inflate, slot) && |slot.buffer| == Max(|vacant.buffer|, SizeOf(id))
       else !slot.Occupied()
  }

  /** The cache after a miss, whether the group could be loaded or not. */
  lemma {:induction false} AcquiredOk(inflate: Inflate, before: Slots, trimmed: Slots, t: nat, tick: nat,
                                      slot: GroupSlot, id: GroupId, ok: bool)
    requires SlotsOk(inflate, before, tick) && NotResident(before, id) && IsTarget(before, t)
    requires Trimmed(before, trimmed, t, Max(|before[t].buffer|, SizeOf(id)))
    requires FillResult(inflate, Vacated(trimmed[t]), slot, id, ok)
    ensures SlotsOk(inflate, trimmed[t := slot], tick)
    ensures trimmed[t := slot][t := before[t]] == trimmed
  {
    var needed := Max(|before[t].buffer|, SizeOf(id));
    TrimKeeps(inflate, before, trimmed, t, needed, tick, id);
    if ok {
      FilledOk(inflate, trimmed, t, tick, slot, id);
    } else {
      VacatedOk(inflate, trimmed, t, needed, tick, slot);
    }
  }

  /** What a miss does to the slots: the target is chosen, others make room for it, and it is filled or left empty. */
  ghost predicate MissResult(before: Slots, t: nat, trimmed: Slots, slot: GroupSlot, id: GroupId, ok: bool) {
    && IsTarget(before, t)
    && Trimmed(before, trimmed, t, Max(|before[t].buffer|, SizeOf(id)))
    && if ok then slot.Is(id) && |slot.buffer| == Max(|before[t].buffer|, SizeOf(id)) else !slot.Occupied()
  }

  // --- Keeping the first requests warm ---

  lemma {:induction false} WarmMiss(slots: Slots, order: seq<GroupId>, inflations: seq<GroupId>, id: GroupId, t: nat,
                                    slot: GroupSlot, trimmed: Slots)
    requires Warm(slots, order, inflations, 0) && NotResident(slots, id) && IsTarget(slots, t)
    requires Trimmed(slots, trimmed, t, Max(|slots[t].buffer|, SizeOf(id)))
    requires slot.Is(id) && |slot.buffer| == Max(|slots[t].buffer|, SizeOf(id))
    ensures Warm(trimmed[t := slot], Requested(order, id), inflations + [id], 0)
  {
    if FitTogether(Requested(order, id)) {
      if id !in order {
        FitsBefore(order, id);
        NextSlotIsFree(slots, order, id, t);
      }
    }
  }

  /** The warm-up after a miss: either the group was inflated, or something failed. */
  lemma {:induction false} WarmMissed(before: Slots, order: seq<GroupId>, inflations: seq<GroupId>, was: nat,
                                      id: GroupId, t: nat, trimmed: Slots, slot: GroupSlot, ok: bool, faults: nat)
    requires Warm(before, order, inflations, was) && NotResident(before, id)
    requires MissResult(before, t, trimmed, slot, id, ok)
    requires if ok then faults == was else faults > was
    ensures Warm(trimmed[t := slot], Requested(order, id), if ok then inflations + [id] else inflations, faults)
  {
    if ok && was == 0 {
      WarmMiss(before, order, inflations, id, t, slot, trimmed);
    }
  }

  lemma {:induction false} WarmHit(slots: Slots, order: seq<GroupId>, inflations: seq<GroupId>, faults: nat,
                                   id: GroupId, t: nat, tick: nat)
    requires Warm(slots, order, inflations, faults) && t < MAX_GROUP_SLOTS && slots[t].Is(id)
    ensures Warm(slots[t := slots[t].(lastUsedTick := tick)], Requested(order, id), inflations, faults)
  {
    if faults == 0 && FitTogether(Requested(order, id)) {
      if id !in order {
        FitsBefore(order, id);
      }
    }
  }

  lemma {:induction false} WarmFaulted(slots: Slots, order: seq<GroupId>, inflations: seq<GroupId>, faults: nat,
                                       more: nat)
    requires Warm(slots, order, inflations, faults) && faults <= more
    ensures Warm(slots, order, inflations, more)
  {
  }

  /** As long as the groups asked for since the last clear fit together and nothing failed, none was inflated twice. */
  lemma {:induction false} InflatedOnce(inflate: Inflate, slots: Slots, tick: nat, order: seq<GroupId>,
                                        inflations: seq<GroupId>)
    requires SlotsOk(inflate, slots, tick) && Warm(slots, order, inflations, 0) && FitTogether(order)
    ensures forall i, j :: 0 <= i < j < |inflations| ==> inflations[i] != inflations[j]
    ensures forall id :: id in order <==> id in inflations
  {
    forall i, j | 0 <= i < j < |order| ensures order[i] != order[j] {
      assert slots[i].Is(order[i]) && slots[j].Is(order[j]);
    }
  }
}
