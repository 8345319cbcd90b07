/** The glyph bitmap decompressor and its two caches (lib/EpdFont/FontDecompressor.cpp). */
module FontDecompressors {
  import opened Bytes
  import opened Repacking
  import opened FontData
  import opened GroupCache
  import opened Intervals
  import opened PageExtract
  import opened PageGlyphs

  class FontDecompressor {
    const inflate: Inflate

    /** Glyphs extracted ahead of drawing, one slot for each font. */
    var pageSlots: seq<PageSlot>
    var groupSlots: Slots
    var usageTick: nat
    /** Scratch for one glyph; its length is its capacity. */
    var hotGlyphBuf: array<Byte>

    /** Since the last clear: the groups requested, in order of their first request, the groups inflated into
        the cache, and how many allocations and inflations failed. */
    ghost var order: seq<GroupId>
    ghost var inflations: seq<GroupId>
    ghost var oom: nat
    ghost var unreadable: nat

    ghost predicate GroupsValid()
      reads this
    {
      SlotsOk(inflate, groupSlots, usageTick) && Warm(groupSlots, order, inflations, oom + unreadable)
    }

    ghost predicate PagesValid()
      reads this
    {
      |pageSlots| <= MAX_PAGE_SLOTS && forall s :: 0 <= s < |pageSlots| ==> PageOk(inflate, pageSlots[s])
    }

    ghost predicate Valid()
      reads this
    {
      GroupsValid() && PagesValid()
    }

    constructor (inflate: Inflate)
      ensures Valid() && this.inflate == inflate && fresh(hotGlyphBuf)
      ensures pageSlots == [] && groupSlots == CLEARED && oom + unreadable == 0
    {
      this.inflate := inflate;
      pageSlots, groupSlots, usageTick := [], CLEARED, 0;
      hotGlyphBuf := new Byte[0];
      order, inflations, oom, unreadable := [], [], 0, 0;
      new;
      ClearedOk(inflate, usageTick);
    }

    /** Drops everything cached; the clock keeps running. */
    method ClearCache()
      modifies this
      ensures Valid() && pageSlots == [] && groupSlots == CLEARED && usageTick == old(usageTick)
      ensures order == [] && inflations == [] && oom + unreadable == 0 && fresh(hotGlyphBuf)
    {
      pageSlots, groupSlots := [], CLEARED;
      hotGlyphBuf := new Byte[0];
      order, inflations, oom, unreadable := [], [], 0, 0;
      ClearedOk(inflate, usageTick);
    }

    /** An allocation, which may fail. */
    method Allocate() returns (ok: bool)
      modifies this`oom
      ensures oom == if ok then old(oom) else old(oom) + 1
    {
      ok := *;
      if !ok {
        oom := oom + 1;
      }
    }

    // --- Finding and choosing slots ---

    method FindResidentGroup(id: GroupId) returns (slot: nat)
      ensures slot <= MAX_GROUP_SLOTS
      ensures slot < MAX_GROUP_SLOTS ==> groupSlots[slot].Is(id)
      ensures slot == MAX_GROUP_SLOTS ==> forall i :: 0 <= i < MAX_GROUP_SLOTS ==> !groupSlots[i].Is(id)
    {
      slot := 0;
      while slot < MAX_GROUP_SLOTS && !groupSlots[slot].Is(id)
        invariant slot <= MAX_GROUP_SLOTS && forall i :: 0 <= i < slot ==> !groupSlots[i].Is(id)
      {
        slot := slot + 1;
      }
    }

    /** An empty slot, or else the least recently used one. */
    method PickTarget() returns (target: nat)
      ensures IsTarget(groupSlots, target)
    {
      target := 0;
      var i: nat := 0;
      while i < MAX_GROUP_SLOTS
        invariant i <= MAX_GROUP_SLOTS && target < MAX_GROUP_SLOTS && (i == 0 ==> target == 0) && (i > 0 ==> target < i)
        invariant forall j :: 0 <= j < i ==> groupSlots[j].Occupied()
        invariant forall j :: 0 <= j < i ==> groupSlots[target].lastUsedTick <= groupSlots[j].lastUsedTick
      {
        if !groupSlots[i].Occupied() { return i; }
        if i == 0 || groupSlots[i].lastUsedTick < groupSlots[target].lastUsedTick {
          target := i;
        }
        i := i + 1;
      }
    }

    /** The least recently used occupied slot other than the target, or none. */
    method PickVictim(target: nat) returns (victim: nat)
      ensures victim == MAX_GROUP_SLOTS || IsVictim(groupSlots, target, victim)
      ensures victim == MAX_GROUP_SLOTS ==> Alone(groupSlots, target)
    {
      victim := MAX_GROUP_SLOTS;
      var i: nat := 0;
      while i < MAX_GROUP_SLOTS
        invariant i <= MAX_GROUP_SLOTS
        invariant victim == MAX_GROUP_SLOTS ==> forall j :: 0 <= j < i && j != target ==> !groupSlots[j].Occupied()
        invariant victim != MAX_GROUP_SLOTS ==> victim < i && victim != target && groupSlots[victim].Occupied()
        invariant victim != MAX_GROUP_SLOTS ==> forall j :: 0 <= j < i && j != target && groupSlots[j].Occupied() ==>
                    groupSlots[victim].lastUsedTick <= groupSlots[j].lastUsedTick
      {
        if i != target && groupSlots[i].Occupied()
           && (victim == MAX_GROUP_SLOTS || groupSlots[i].lastUsedTick < groupSlots[victim].lastUsedTick)
        {
          victim := i;
        }
        i := i + 1;
      }
    }

    /** Evicts other slots, least recently used first, until `needed` bytes more fit the budget. */
    method TrimToBudget(target: nat, needed: nat)
      requires target < MAX_GROUP_SLOTS
      modifies this`groupSlots
      ensures Trimmed(old(groupSlots), groupSlots, target, needed)
    {
      while OtherBytes(groupSlots, target) + needed > GROUP_CACHE_BUDGET_BYTES
        invariant forall i :: 0 <= i < MAX_GROUP_SLOTS ==>
          groupSlots[i] == old(groupSlots)[i]
          || (i != target && old(groupSlots)[i].Occupied() && groupSlots[i] == EMPTY_SLOT)
        invariant forall i, j :: 0 <= i < MAX_GROUP_SLOTS && 0 <= j < MAX_GROUP_SLOTS && j != target
                                 && groupSlots[i] != old(groupSlots)[i] && groupSlots[j].Occupied() ==>
          old(groupSlots)[i].lastUsedTick <= old(groupSlots)[j].lastUsedTick
        invariant OtherBytes(old(groupSlots), target) + needed <= GROUP_CACHE_BUDGET_BYTES ==>
          groupSlots == old(groupSlots)
        decreases OccupiedFrom(groupSlots, 0)
      {
        var victim := PickVictim(target);
        if victim == MAX_GROUP_SLOTS { break; }
        Emptied(groupSlots, victim, 0);
        groupSlots := groupSlots[victim := EMPTY_SLOT];
      }
    }

    // --- Filling a slot ---

    /** The offset table of a freshly inflated group; without one the slow scan is used. */
    method BuildGroupOffsets(slot: GroupSlot, font: EpdFontData) returns (r: GroupSlot)
      requires Compressed(font) && slot.groupIndex < |font.groups|
      requires font.glyphToGroup.None? ==> slot.firstGlyphIndex == font.groups[slot.groupIndex].firstGlyphIndex
      ensures r.(offsets := slot.offsets, hasOffsets := slot.hasOffsets) == slot
      ensures r.hasOffsets ==> OffsetsOf(r, font)
      ensures r.hasOffsets <==> font.glyphToGroup.None? && 0 < font.groups[slot.groupIndex].glyphCount <= |r.offsets|
      ensures |r.offsets| >= |slot.offsets| || r.offsets == [] != slot.offsets
      ensures font.glyphToGroup.None? && 0 < font.groups[slot.groupIndex].glyphCount <= |slot.offsets| ==> r.hasOffsets
    {
      r := slot.(hasOffsets := false);
      if font.glyphToGroup.Some? { return; }
      var group := font.groups[slot.groupIndex];
      if group.glyphCount == 0 { return; }
      if |r.offsets| < group.glyphCount {
        var ok := *;
        r := r.(offsets := if ok then seq(group.glyphCount, _ => 0) else []);
        if !ok { return; }
      }
      var table := FillOffsets(font, slot.groupIndex, r.offsets);
      r := r.(offsets := table, hasOffsets := true);
    }

    method FillOffsets(font: EpdFontData, g: nat, room: seq<nat>) returns (table: seq<nat>)
      requires Compressed(font) && font.glyphToGroup.None? && g < |font.groups| && font.groups[g].glyphCount <= |room|
      ensures TableUpTo(table, font, g, font.groups[g].glyphCount) && |table| == |room|
    {
      var group := font.groups[g];
      table := room;
      var off, local: nat := 0, 0;
      AlignedOffsetBefore(font, g, group.firstGlyphIndex);
      while local < group.glyphCount
        invariant local <= group.glyphCount <= |table| == |room|
        invariant off == AlignedOffset(font, g, group.firstGlyphIndex + local)
        invariant TableUpTo(table, font, g, local)
      {
        TableNext(table, font, g, local, off);
        table := table[local := off];
        off := off + BytesOf(font.glyph[group.firstGlyphIndex + local]);
        local := local + 1;
      }
    }

    /** Gives the slot's buffer at least `needed` bytes; when it grows the old contents are dead. */
    method EnsureCapacity(slot: GroupSlot, needed: nat) returns (r: GroupSlot, ok: bool)
      modifies this`oom
      ensures r.(buffer := slot.buffer) == slot
      ensures ok ==> |r.buffer| == Max(|slot.buffer|, needed) && oom == old(oom)
      ensures !ok ==> r.buffer == [] && oom == old(oom) + 1
    {
      if |slot.buffer| >= needed { return slot, true; }
      ok := Allocate();
      r := slot.(buffer := if ok then seq(needed, _ => 0) else []);
    }

    /** Inflates a group over the head of the slot's buffer. */
    method DecompressGroup(slot: GroupSlot, id: GroupId) returns (r: GroupSlot, ok: bool)
      requires Compressed(id.font) && id.group < |id.font.groups| && SizeOf(id) <= |slot.buffer|
      ensures r.(buffer := slot.buffer) == slot && |r.buffer| == |slot.buffer|
      ensures ok <==> Inflated(inflate, id.font, id.group).Some?
      ensures ok ==> Inflated(inflate, id.font, id.group) == Some(r.buffer[..SizeOf(id)])
    {
      var d := Inflated(inflate, id.font, id.group);
      ok := d.Some?;
      r := slot;
      if ok {
        r := slot.(buffer := d.value + slot.buffer[SizeOf(id)..]);
        assert r.buffer[..SizeOf(id)] == d.value;
      }
    }

    /** Allocates, inflates and indexes a group in a vacated slot. */
    method FillSlot(vacant: GroupSlot, id: GroupId) returns (slot: GroupSlot, ok: bool)
      requires Compressed(id.font) && id.group < |id.font.groups| && !vacant.Occupied()
      modifies this`oom
      ensures FillResult(inflate, vacant, slot, id, ok)
      ensures oom >= old(oom) && (ok ==> oom == old(oom))
      ensures !ok ==> oom > old(oom) || Inflated(inflate, id.font, id.group).None?
    {
      slot, ok := EnsureCapacity(vacant, SizeOf(id));
      if !ok { return; }
      slot, ok := DecompressGroup(slot, id);
      if !ok { return; }
      slot := slot.(fontData := id.font, groupIndex := id.group, groupBytes := SizeOf(id),
                    firstGlyphIndex := id.font.groups[id.group].firstGlyphIndex);
      slot := BuildGroupOffsets(slot, id.font);
      FilledSlotOk(inflate, id, slot);
    }

    /** Picks a slot, makes room in the budget and fills it. */
    method LoadGroup(id: GroupId) returns (target: nat, ok: bool, ghost trimmed: Slots)
      requires SlotsOk(inflate, groupSlots, usageTick) && NotResident(groupSlots, id)
      requires Compressed(id.font) && id.group < |id.font.groups|
      modifies this`groupSlots, this`oom
      ensures SlotsOk(inflate, groupSlots, usageTick)
      ensures target < MAX_GROUP_SLOTS && MissResult(old(groupSlots), target, trimmed, groupSlots[target], id, ok)
      ensures groupSlots == trimmed[target := groupSlots[target]]
      ensures oom >= old(oom) && (ok ==> oom == old(oom))
      ensures !ok ==> oom > old(oom) || Inflated(inflate, id.font, id.group).None?
    {
      target := PickTarget();
      TrimToBudget(target, Max(|groupSlots[target].buffer|, SizeOf(id)));
      trimmed := groupSlots;
      var slot;
      slot, ok := FillSlot(Vacated(groupSlots[target]), id);
      AcquiredOk(inflate, old(groupSlots), trimmed, target, usageTick, slot, id, ok);
      groupSlots := groupSlots[target := slot];
    }

    /** Loads a group that is not resident, evicting the least recently used ones as the budget demands. */
    method AcquireGroupSlot(id: GroupId) returns (target: nat, ok: bool, ghost trimmed: Slots)
      requires GroupsValid() && NotResident(groupSlots, id)
      requires Compressed(id.font) && id.group < |id.font.groups|
      modifies this`groupSlots, this`oom, this`inflations, this`order, this`unreadable
      ensures GroupsValid() && oom >= old(oom) && (ok ==> oom == old(oom)) && order == Requested(old(order), id)
      ensures target < MAX_GROUP_SLOTS && MissResult(old(groupSlots), target, trimmed, groupSlots[target], id, ok)
      ensures groupSlots == trimmed[target := groupSlots[target]]
      ensures inflations == if ok then old(inflations) + [id] else old(inflations)
      ensures !ok ==> oom > old(oom) || Inflated(inflate, id.font, id.group).None?
    {
      ghost var before, was := groupSlots, oom + unreadable;
      target, ok, trimmed := LoadGroup(id);
      if !ok && oom == old(oom) {
        unreadable := unreadable + 1;
      }
      WarmMissed(before, order, inflations, was, id, target, trimmed, groupSlots[target], ok, oom + unreadable);
      order := Requested(order, id);
      inflations := if ok then inflations + [id] else inflations;
    }

    // --- Drawing ---

    method ScanByFrequency(font: EpdFontData, g: nat, i: nat) returns (offset: nat)
      requires Compressed(font) && i < |font.glyph| && font.glyphToGroup.Some?
      ensures offset == AlignedOffset(font, g, i)
    {
      offset := 0;
      var k: nat := 0;
      while k < i
        invariant k <= i && offset == AlignedOffset(font, g, k)
      {
        if font.glyphToGroup.value[k] == g {
          offset := offset + BytesOf(font.glyph[k]);
        }
        k := k + 1;
      }
    }

    method ScanByRange(font: EpdFontData, g: nat, i: nat) returns (offset: nat)
      requires Compressed(font) && i < |font.glyph| && font.glyphToGroup.None?
      requires g < |font.groups| && InRange(font.groups[g], i)
      ensures offset == AlignedOffset(font, g, i)
    {
      offset := 0;
      var k := font.groups[g].firstGlyphIndex;
      AlignedOffsetBefore(font, g, k);
      while k < i
        invariant font.groups[g].firstGlyphIndex <= k <= i && offset == AlignedOffset(font, g, k)
      {
        assert InRange(font.groups[g], k) && GroupOf(font, k) == g;
        offset := offset + BytesOf(font.glyph[k]);
        k := k + 1;
      }
    }

    /** The slow scan for the start of glyph `i` in its group. */
    method GetAlignedOffset(font: EpdFontData, g: nat, i: nat) returns (offset: nat)
      requires Compressed(font) && i < |font.glyph| && GroupOf(font, i) == g
      ensures offset == AlignedOffset(font, g, i)
    {
      if font.glyphToGroup.Some? {
        offset := ScanByFrequency(font, g, i);
      } else {
        offset := ScanByRange(font, g, i);
      }
    }

    /** Looks a glyph up in the page slot of its font. */
    method FromPage(font: EpdFontData, i: nat) returns (r: Option<Data>)
      requires PagesValid() && Compressed(font) && i < |font.glyph|
      ensures r.Some? <==> OnPage(pageSlots, font, i)
      ensures r.Some? ==> r == Decoded(inflate, font, i)
    {
      var s: nat := 0;
      while s < |pageSlots|
        invariant s <= |pageSlots| && PageOf(pageSlots, font, 0) == PageOf(pageSlots, font, s)
      {
        if pageSlots[s].fontData == font && pageSlots[s].glyphs != [] {
          var slot := pageSlots[s];
          var k := FindEntry(slot.glyphs, i);
          if k.Some? && slot.glyphs[k.value].bufferOffset.Some? {
            var at := slot.glyphs[k.value].bufferOffset.value;
            assert EntryOk(inflate, font, slot.glyphs[k.value], slot.buffer, |slot.buffer|);
            return Some(slot.buffer[at..at + PackedLength(font.glyph[i])]);
          }
          return None;
        }
        s := s + 1;
      }
      return None;
    }

    /** Stamps a resident group as the most recently used one. */
    method Touch(id: GroupId, slot: nat)
      requires GroupsValid() && slot < MAX_GROUP_SLOTS && groupSlots[slot].Is(id)
      modifies this`groupSlots, this`usageTick, this`order
      ensures GroupsValid() && usageTick == old(usageTick) + 1 && order == Requested(old(order), id)
      ensures groupSlots == old(groupSlots)[slot := old(groupSlots)[slot].(lastUsedTick := usageTick)]
    {
      usageTick := usageTick + 1;
      TouchedOk(inflate, groupSlots, slot, usageTick);
      WarmHit(groupSlots, order, inflations, oom + unreadable, id, slot, usageTick);
      groupSlots := groupSlots[slot := groupSlots[slot].(lastUsedTick := usageTick)];
      order := Requested(order, id);
    }

    /** Makes the glyph's group resident and the most recently used one. */
    method UseGroup(id: GroupId) returns (slot: nat, ok: bool)
      requires GroupsValid() && Compressed(id.font) && id.group < |id.font.groups|
      modifies this`groupSlots, this`usageTick, this`oom, this`inflations, this`order, this`unreadable
      ensures GroupsValid() && oom >= old(oom) && (ok ==> oom == old(oom)) && order == Requested(old(order), id)
      ensures ok ==> slot < MAX_GROUP_SLOTS && groupSlots[slot].Is(id) && groupSlots[slot].lastUsedTick == usageTick
      ensures ok ==> usageTick == old(usageTick) + 1
      ensures !ok ==> oom > old(oom) || Inflated(inflate, id.font, id.group).None?
      ensures !NotResident(old(groupSlots), id) ==> ok && oom == old(oom) && inflations == old(inflations)
      ensures inflations == old(inflations) || inflations == old(inflations) + [id]
    {
      slot := FindResidentGroup(id);
      ok := true;
      if slot == MAX_GROUP_SLOTS {
        ghost var trimmed;
        slot, ok, trimmed := AcquireGroupSlot(id);
        if !ok { return; }
      }
      Touch(id, slot);
    }

    /** Scratch for a packed glyph. */
    method GrowScratch(needed: nat) returns (ok: bool)
      modifies this`hotGlyphBuf, this`oom
      ensures ok ==> hotGlyphBuf.Length >= needed && oom == old(oom)
      ensures !ok ==> oom == old(oom) + 1
      ensures hotGlyphBuf == old(hotGlyphBuf) || fresh(hotGlyphBuf)
    {
      if hotGlyphBuf.Length >= needed { return true; }
      ok := Allocate();
      hotGlyphBuf := new Byte[if ok then needed else 0];
    }

    /** Where glyph `i` starts in its resident group. */
    method OffsetIn(slot: GroupSlot, font: EpdFontData, i: nat) returns (offset: nat)
      requires SlotOk(inflate, slot) && slot.fontData == font && Compressed(font) && i < |font.glyph|
      requires slot.groupIndex == GroupOf(font, i)
      ensures offset == AlignedOffset(font, slot.groupIndex, i)
    {
      if slot.hasOffsets {
        assert InRange(font.groups[slot.groupIndex], i);
        offset := slot.offsets[i - slot.firstGlyphIndex];
      } else {
        offset := GetAlignedOffset(font, slot.groupIndex, i);
      }
    }

    /** Packs a glyph of a resident group into the scratch buffer. */
    method PackGlyph(slot: GroupSlot, font: EpdFontData, i: nat) returns (r: Option<Data>)
      requires SlotOk(inflate, slot) && slot.fontData == font && Compressed(font) && i < |font.glyph|
      requires slot.groupIndex == GroupOf(font, i)
      modifies this`hotGlyphBuf, this`oom, hotGlyphBuf
      ensures r == if oom == old(oom) then Decoded(inflate, font, i) else None
      ensures oom >= old(oom) && (hotGlyphBuf == old(hotGlyphBuf) || fresh(hotGlyphBuf))
    {
      var glyph := font.glyph[i];
      var ok := GrowScratch(glyph.dataLength);
      if !ok { return None; }
      var offset := OffsetIn(slot, font, i);
      PackedInSlot(inflate, slot, font, i);
      var aligned := slot.buffer[offset..slot.groupBytes];
      r := PackInto(aligned, glyph, hotGlyphBuf);
    }

    static method PackInto(aligned: Data, glyph: EpdGlyph, scratch: array<Byte>) returns (r: Option<Data>)
      requires |aligned| >= GlyphBytes(glyph)
      requires scratch.Length >= glyph.dataLength == |Packed(aligned, glyph.width, glyph.height)|
      modifies scratch
      ensures r == Some(Packed(aligned, glyph.width, glyph.height))
    {
      CompactSingleGlyph(aligned, scratch, 0, glyph.width, glyph.height);
      assert scratch[..glyph.dataLength] == Packed(aligned, glyph.width, glyph.height);
      return Some(scratch[..glyph.dataLength]);
    }

    /** A glyph that no page holds: from its group, loaded if it is not resident. */
    method FromGroup(font: EpdFontData, i: nat) returns (r: Option<Data>)
      requires GroupsValid() && Compressed(font) && i < |font.glyph|
      modifies this`groupSlots, this`usageTick, this`oom, this`inflations, this`order, this`unreadable
      modifies this`hotGlyphBuf, hotGlyphBuf
      ensures GroupsValid() && oom >= old(oom) && (hotGlyphBuf == old(hotGlyphBuf) || fresh(hotGlyphBuf))
      ensures r == if oom == old(oom) then Decoded(inflate, font, i) else None
      ensures order == Requested(old(order), GroupId(font, GroupOf(font, i)))
    {
      var g := GetGroupIndex(font, i);
      var slot, ok := UseGroup(GroupId(font, g));
      if !ok { return None; }
      ghost var faults := oom + unreadable;
      r := PackGlyph(groupSlots[slot], font, i);
      WarmFaulted(groupSlots, order, inflations, faults, oom + unreadable);
    }

    /** The packed bitmap of a glyph: from the page if it was extracted, else from its group. */
    method GetBitmap(font: EpdFontData, i: nat) returns (r: Option<Data>)
      requires Valid() && i < |font.glyph|
      requires if font.groups == [] then Plain(font) else Compressed(font)
      modifies this, hotGlyphBuf
      ensures Valid() && pageSlots == old(pageSlots) && oom >= old(oom)
      ensures hotGlyphBuf == old(hotGlyphBuf) || fresh(hotGlyphBuf)
      ensures font.groups == [] ==> r == Some(font.bitmap[font.glyph[i].dataOffset..][..font.glyph[i].dataLength])
      ensures font.groups != [] && !Drawn(font.glyph[i]) ==> r == Some([])
      ensures font.groups != [] && Drawn(font.glyph[i]) ==>
        if oom == old(oom) then r == Decoded(inflate, font, i) else r == None
      ensures font.groups == [] || !Drawn(font.glyph[i]) || OnPage(pageSlots, font, i) ==>
        groupSlots == old(groupSlots) && order == old(order) && inflations == old(inflations) && oom == old(oom)
      ensures font.groups != [] && Drawn(font.glyph[i]) && !OnPage(pageSlots, font, i) ==>
        order == Requested(old(order), GroupId(font, GroupOf(font, i)))
    {
      var glyph := font.glyph[i];
      if font.groups == [] {
        return Some(font.bitmap[glyph.dataOffset..][..glyph.dataLength]);
      }
      if glyph.width == 0 || glyph.height == 0 || glyph.dataLength == 0 {
        ExtentIsDrawn(glyph);
        return Some([]);
      }
      ExtentIsDrawn(glyph);
      r := FromPage(font, i);
      if r.Some? { return; }
      r := FromGroup(font, i);
    }

    // --- Prewarming ---

    /** Inflates each needed group once and extracts its glyphs. */
    method ExtractAll(font: EpdFontData, groups: seq<nat>, es: seq<PageGlyphEntry>, buffer: array<Byte>)
      returns (r: seq<PageGlyphEntry>, missed: nat)
      requires InTable(font, es) && NothingExtracted(es) && Pending(font, es) == buffer.Length
      requires AlignedBelow(font, es, groups, |font.glyph|) && InGroups(font, groups)
      modifies buffer, this`oom
      ensures OnlyExtracted(r, es) && InTable(font, r) && EntriesOk(inflate, font, r, buffer[..], buffer.Length)
      ensures oom >= old(oom)
      ensures missed == 0 ==> AllDrained(font, r, groups, |groups|)
      ensures missed > 0 ==> oom > old(oom) || SomeUnreadable(inflate, font, groups, |groups|)
    {
      r, missed := es, 0;
      var used, p: nat := 0, 0;
      while p < |groups|
        invariant p <= |groups| && oom >= old(oom)
        invariant Progress(inflate, font, r, buffer[..], used) && OnlyExtracted(r, es) && InTable(font, r)
        invariant missed == 0 ==> AllDrained(font, r, groups, p)
        invariant missed > 0 ==> oom > old(oom) || SomeUnreadable(inflate, font, groups, p)
      {
        var ok := Allocate();
        var temp := if ok then Inflated(inflate, font, groups[p]) else None;
        if temp.None? {
          missed := missed + 1;
        } else {
          StillAligned(font, es, r, groups, p);
          ghost var was := r;
          r, used := ExtractGroup(inflate, font, groups[p], temp.value, r, buffer, used);
          ExtractedSince(r, was, es);
          StillDrained(font, was, r, groups, p, missed == 0);
        }
        p := p + 1;
      }
      EntriesWiden(inflate, font, r, buffer[..], used);
    }

    /** Aligned offsets of the sorted entries, in either group layout. */
    method ScanAligned(font: EpdFontData, es: seq<PageGlyphEntry>, groups: seq<nat>) returns (r: seq<PageGlyphEntry>)
      requires InTable(font, es) && Indexed(font) && Distinct(groups) && InGroups(font, groups)
      requires es != [] && forall k :: 0 <= k < |es| ==> es[k].glyphIndex < Start(font.intervals, |font.intervals|)
      ensures OnlyAligned(r, es) && InTable(font, r) && AlignedBelow(font, r, groups, |font.glyph|)
    {
      if font.glyphToGroup.Some? {
        assert es[0].glyphIndex < Start(font.intervals, |font.intervals|);
        var last := font.intervals[|font.intervals| - 1];
        assert Consecutive(font.intervals, |font.intervals| - 1);
        r := ScanFrequency(font, es, groups, last.offset + (last.last - last.first + 1));
      } else {
        r := ScanRanges(font, es, groups);
      }
    }

    /** The table of needed glyphs, sorted and with their aligned offsets. */
    method MakeTable(font: EpdFontData, text: seq<nat>, needed: seq<nat>, groups: seq<nat>)
      returns (es: seq<PageGlyphEntry>)
      requires Indexed(font) && needed == Needed(font, text) && needed != [] && InFont(font, needed)
      requires groups == GroupsNeeded(font, needed)
      ensures InTable(font, es) && NothingExtracted(es) && HasExactly(es, needed)
      ensures Pending(font, es) == Pending(font, Fresh(needed)) && AlignedBelow(font, es, groups, |font.glyph|)
    {
      NeededIsPageFul(font, text);
      es := SortEntries(font, Fresh(needed));
      SortedHas(font, needed, es);
      ghost var was := es;
      es := ScanAligned(font, es, groups);
      AlignedPending(font, es, was);
      StillHas(was, es, es, needed);
    }

    /** Extracts the glyphs a text needs into a new page slot; returns how many groups could not be loaded. */
    method PrewarmCache(font: EpdFontData, text: seq<nat>) returns (missed: int)
      requires PagesValid() && (font.groups != [] ==> Indexed(font))
      modifies this`pageSlots, this`oom
      ensures PagesValid() && oom >= old(oom)
      ensures missed == -1 <==> font.groups != [] && |old(pageSlots)| == MAX_PAGE_SLOTS
      ensures pageSlots == old(pageSlots)
        || (font.groups != [] && PageAdded(inflate, font, text, old(pageSlots), pageSlots, missed, oom > old(oom)))
      ensures pageSlots == old(pageSlots) ==>
        || missed == -1 || (font.groups == [] && missed == 0)
        || (font.groups != [] && missed == |Needed(font, text)| && (missed > 0 ==> oom > old(oom)))
    {
      if font.groups == [] { return 0; }
      if |pageSlots| >= MAX_PAGE_SLOTS { return -1; }
      var needed := CollectGlyphs(font, text);
      needed := AddLigatures(font, needed);
      if |needed| == 0 { return 0; }
      NeededIsPageFul(font, text);
      var groups, totalBytes := CollectGroups(font, needed);
      var bufferOk := Allocate();
      var glyphsOk := Allocate();
      if !bufferOk || !glyphsOk { return |needed|; }
      var buffer := new Byte[totalBytes];
      var slot;
      slot, missed := FillPage(font, text, needed, groups, buffer);
      pageSlots := pageSlots + [slot];
    }

    /** Fills the buffer of a new page slot. */
    method FillPage(font: EpdFontData, text: seq<nat>, needed: seq<nat>, groups: seq<nat>, buffer: array<Byte>)
      returns (slot: PageSlot, missed: nat)
      requires Indexed(font) && needed == Needed(font, text) && needed != [] && InFont(font, needed)
      requires groups == GroupsNeeded(font, needed) && buffer.Length == Pending(font, Fresh(needed))
      modifies buffer, this`oom
      ensures PageOk(inflate, slot) && oom >= old(oom) && slot.fontData == font && HasExactly(slot.glyphs, needed)
      ensures missed == 0 && |groups| < MAX_PAGE_GROUPS ==> AllIn(slot.glyphs, needed)
      ensures missed > 0 ==> oom > old(oom) || SomeUnreadable(inflate, font, groups, |groups|)
    {
      var table := MakeTable(font, text, needed, groups);
      var es;
      es, missed := ExtractAll(font, groups, table, buffer);
      StillHas(table, table, es, needed);
      if missed == 0 && |groups| < MAX_PAGE_GROUPS {
        AllExtracted(font, needed, groups, es);
      }
      slot := PageSlot(font, es, buffer[..]);
    }
  }

  const CLEARED: Slots := [EMPTY_SLOT, EMPTY_SLOT, EMPTY_SLOT]

  lemma {:induction false} ClearedOk(inflate: Inflate, tick: nat)
    ensures SlotsOk(inflate, CLEARED, tick) && Warm(CLEARED, [], [], 0)
  {
    assert Alone(CLEARED, 0);
  }

  lemma {:induction false} TouchedOk(inflate: Inflate, slots: Slots, t: nat, tick: nat)
    requires tick > 0 && SlotsOk(inflate, slots, tick - 1) && t < MAX_GROUP_SLOTS
    ensures SlotsOk(inflate, slots[t := slots[t].(lastUsedTick := tick)], tick)
  {
    var after := slots[t := slots[t].(lastUsedTick := tick)];
    if n :| 0 <= n < MAX_GROUP_SLOTS && Alone(slots, n) {
      assert Alone(after, n);
    }
  }

  /** The bytes of a resident group from the glyph's offset on are what a decode without cache would pack. */
  lemma {:induction false} PackedInSlot(inflate: Inflate, slot: GroupSlot, font: EpdFontData, i: nat)
    requires SlotOk(inflate, slot) && slot.fontData == font && Compressed(font) && i < |font.glyph|
    requires slot.groupIndex == GroupOf(font, i)
    ensures var glyph, offset := font.glyph[i], AlignedOffset(font, slot.groupIndex, i);
            && offset + GlyphBytes(glyph) <= slot.groupBytes <= |slot.buffer|
            && |Packed(slot.buffer[offset..slot.groupBytes], glyph.width, glyph.height)| == glyph.dataLength
            && Decoded(inflate, font, i) == Some(Packed(slot.buffer[offset..slot.groupBytes], glyph.width,
                                                        glyph.height))
  {
    GlyphInGroup(font, i);
    var glyph, offset := font.glyph[i], AlignedOffset(font, slot.groupIndex, i);
    assert slot.buffer[..slot.groupBytes][offset..] == slot.buffer[offset..slot.groupBytes];
    PackedPadding(slot.buffer[offset..slot.groupBytes], glyph.width, glyph.height, 0);
  }

  /** An uncompressed font, whose bitmaps lie ready in its data. */
  predicate Plain(font: EpdFontData) {
    forall i :: 0 <= i < |font.glyph| ==> font.glyph[i].dataOffset + font.glyph[i].dataLength <= |font.bitmap|
  }

  predicate Drawn(glyph: EpdGlyph) {
    glyph.width > 0 && glyph.height > 0
  }

  lemma {:induction false} ExtentIsDrawn(glyph: EpdGlyph)
    ensures glyph.dataLength == PackedLength(glyph) ==>
      (Drawn(glyph) <==> !(glyph.width == 0 || glyph.height == 0 || glyph.dataLength == 0))
  {
    if Drawn(glyph) {
      assert glyph.height * glyph.width >= 1;
    }
  }

  // --- Pages ---

  ghost predicate PageOk(inflate: Inflate, slot: PageSlot) {
    && Compressed(slot.fontData) && Sorted(slot.glyphs)
    && EntriesOk(inflate, slot.fontData, slot.glyphs, slot.buffer, |slot.buffer|)
  }

  /** One of the first `n` groups does not inflate. */
  ghost predicate SomeUnreadable(inflate: Inflate, font: EpdFontData, groups: seq<nat>, n: nat)
    requires Compressed(font) && InGroups(font, groups) && n <= |groups|
  {
    exists q :: 0 <= q < n && Inflated(inflate, font, groups[q]).None?
  }

  /** The slot consulted for a font, from slot `s` on. */
  function PageOf(slots: seq<PageSlot>, font: EpdFontData, s: nat): Option<PageSlot>
    requires s <= |slots|
    decreases |slots| - s
  {
    if s == |slots| then None
    else if slots[s].fontData == font && slots[s].glyphs != [] then Some(slots[s])
    else PageOf(slots, font, s + 1)
  }

  ghost predicate OnPage(slots: seq<PageSlot>, font: EpdFontData, i: nat) {
    var slot := PageOf(slots, font, 0);
    slot.Some? && exists k :: 0 <= k < |slot.value.glyphs| && slot.value.glyphs[k].glyphIndex == i
                              && slot.value.glyphs[k].bufferOffset.Some?
  }

  /** A slot was added for the font; unless a group is missing or there are too many, it holds every glyph needed. */
  ghost predicate PageAdded(inflate: Inflate, font: EpdFontData, text: seq<nat>, before: seq<PageSlot>,
                            after: seq<PageSlot>, missed: int, oom: bool)
    requires Indexed(font)
  {
    NeededIsPageFul(font, text);
    && |after| == |before| + 1 && after[..|before|] == before && after[|before|].fontData == font
    && HasExactly(after[|before|].glyphs, Needed(font, text))
    && (missed == 0 && |GroupsNeeded(font, Needed(font, text))| < MAX_PAGE_GROUPS ==>
          AllIn(after[|before|].glyphs, Needed(font, text)))
    && (missed > 0 ==> oom || SomeUnreadable(inflate, font, GroupsNeeded(font, Needed(font, text)),
                                             |GroupsNeeded(font, Needed(font, text))|))
  }

  lemma {:induction false} NeededIsPageFul(font: EpdFontData, text: seq<nat>)
    requires Indexed(font)
    ensures PageFul(font, Needed(font, text)) && Below(Needed(font, text), Start(font.intervals, |font.intervals|))
  {
    NeededBelow(font, text, |font.ligaturePairs|);
    CollectedAll(font, text, 0);
    LigaturesAdded(font, Collected(font, text), |font.ligaturePairs|, 0);
  }

  function OccupiedFrom(slots: Slots, i: nat): nat
    requires i <= MAX_GROUP_SLOTS
    decreases MAX_GROUP_SLOTS - i
  {
    if i == MAX_GROUP_SLOTS then 0 else (if slots[i].Occupied() then 1 else 0) + OccupiedFrom(slots, i + 1)
  }

  lemma {:induction false} Emptied(slots: Slots, v: nat, i: nat)
    requires v < MAX_GROUP_SLOTS && slots[v].Occupied() && i <= MAX_GROUP_SLOTS
    ensures OccupiedFrom(slots[v := EMPTY_SLOT], i) == OccupiedFrom(slots, i) - if i <= v then 1 else 0
    decreases MAX_GROUP_SLOTS - i
  {
    if i < MAX_GROUP_SLOTS {
      Emptied(slots, v, i + 1);
    }
  }
}
