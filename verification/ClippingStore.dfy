/** The clipping store of the open book (src/ClippingStore.cpp). */
module ClippingStores {
  import opened Bytes
  import opened Card
  import opened ClippingCodec
  import opened ClippingFiles
  import opened ClippingRewrite

  class ClippingStore {
    const card: Device
    const limit: nat
    const hash: Data -> nat

    var slots: seq<Clipping>
    var size: nat
    var loaded: bool
    var dirty: bool
    var header: Header
    /** Hash of the book's path, which names its files. */
    var key: nat
    /** The text of each clipping in the list. */
    ghost var texts: seq<Data>

    constructor (card: Device, limit: nat, hash: Data -> nat)
      requires card.Valid() && limit <= 0xFFFF
      ensures this.card == card && this.limit == limit && this.hash == hash
      ensures Valid() && !loaded && List() == [] && header == Header([], [], [])
    {
      this.card, this.limit, this.hash := card, limit, hash;
      slots, size, loaded, dirty, texts := [], 0, false, false, [];
      header, key := Header([], [], []), 0;
    }

    function List(): seq<Clipping>
      requires size <= |slots|
      reads this
    {
      slots[..size]
    }

    // --- Writing the temporary file, since the card was in state `was` with trace `before` ---

    method AppendTmp(data: Data, ghost was: Files, ghost before: seq<Files>) returns (ok: bool)
      requires card.Valid() && Sidecar(key, Tmp) in card.files
      requires TmpOnly(card.files, card.trace, was, before, key)
      modifies card
      ensures card.Valid() && card.faults >= old(card.faults) && (!ok ==> card.faults > old(card.faults))
      ensures Sidecar(key, Tmp) in card.files && OnlyAt(card.files, old(card.files), Sidecar(key, Tmp))
      ensures TmpOnly(card.files, card.trace, was, before, key)
      ensures ok ==> card.files[Sidecar(key, Tmp)] == old(card.files)[Sidecar(key, Tmp)] + data
    {
      ok := card.Append(Sidecar(key, Tmp), data);
      assert data[..|data|] == data;
      TmpOnlySteps(card.files, card.trace, old(card.files), old(card.trace), key);
      TmpOnlyThenTmpOnly(card.files, card.trace, old(card.files), old(card.trace), was, before, key);
    }

    /** Copies `length` bytes from `position` of the store to the end of the temporary file. */
    method CopyBytes(position: nat, length: nat, ghost was: Files, ghost before: seq<Files>) returns (ok: bool)
      requires card.Valid() && Sidecar(key, Main) in card.files && Sidecar(key, Tmp) in card.files && length > 0
      requires TmpOnly(card.files, card.trace, was, before, key)
      modifies card
      ensures card.Valid() && card.faults >= old(card.faults)
      ensures Sidecar(key, Tmp) in card.files && OnlyAt(card.files, old(card.files), Sidecar(key, Tmp))
      ensures TmpOnly(card.files, card.trace, was, before, key)
      ensures ok ==> Copied(card.files[Sidecar(key, Tmp)], old(card.files)[Sidecar(key, Tmp)],
                            old(card.files)[Sidecar(key, Main)], position, length)
      ensures !ok && position + length <= |old(card.files)[Sidecar(key, Main)]| ==> card.faults > old(card.faults)
    {
      var tmp := Sidecar(key, Tmp);
      ghost var source, written := card.files[Sidecar(key, Main)], card.files[tmp];
      var left := length;
      while left > 0
        invariant 0 <= left <= length
        invariant card.Valid() && card.faults >= old(card.faults)
        invariant tmp in card.files && OnlyAt(card.files, old(card.files), tmp)
        invariant TmpOnly(card.files, card.trace, was, before, key)
        invariant Copied(card.files[tmp], written, source, position, length - left)
      {
        var chunk := if left < COPY_BUFFER then left else COPY_BUFFER;
        ghost var sofar := card.files[tmp];
        var data := card.Read(Sidecar(key, Main), position + (length - left), chunk);
        if data.None? { return false; }
        var sent := AppendTmp(data.value, was, before);
        if !sent { return false; }
        CopiedMore(sofar, written, source, position, length - left, chunk);
        left := left - chunk;
      }
      ok := true;
    }

    /** Writes the text of record `i`: `replacement` if there is one, else what the store holds. */
    method WriteText(i: nat, replacement: Option<Data>, ghost text: Data, ghost was: Files, ghost before: seq<Files>)
      returns (ok: bool)
      requires card.Valid() && Sidecar(key, Tmp) in card.files && i < size <= |slots|
      requires if replacement.Some? then replacement.value == text else |text| == slots[i].textLength
      requires replacement.None? && text != [] ==>
        Sidecar(key, Main) in card.files && TextAt(card.files[Sidecar(key, Main)], slots[i], text)
      requires TmpOnly(card.files, card.trace, was, before, key)
      modifies card
      ensures card.Valid() && card.faults >= old(card.faults) && (!ok ==> card.faults > old(card.faults))
      ensures Sidecar(key, Tmp) in card.files && OnlyAt(card.files, old(card.files), Sidecar(key, Tmp))
      ensures TmpOnly(card.files, card.trace, was, before, key)
      ensures ok ==> card.files[Sidecar(key, Tmp)] == old(card.files)[Sidecar(key, Tmp)] + text
    {
      var length := if replacement.Some? then |replacement.value| else slots[i].textLength;
      if length == 0 {
        assert card.files[Sidecar(key, Tmp)] + text == card.files[Sidecar(key, Tmp)];
        ok := true;
      } else if replacement.Some? {
        ok := AppendTmp(replacement.value, was, before);
      } else {
        ok := CopyBytes(slots[i].textOffset, length, was, before);
      }
    }

    /** Writes record `i`. */
    method WriteRecord(i: nat, replacement: Option<Data>, ghost text: Data, ghost was: Files, ghost before: seq<Files>)
      returns (ok: bool, offset: nat)
      requires card.Valid() && Sidecar(key, Tmp) in card.files && i < size <= |slots|
      requires if replacement.Some? then replacement.value == text else |text| == slots[i].textLength
      requires replacement.None? && text != [] ==>
        Sidecar(key, Main) in card.files && TextAt(card.files[Sidecar(key, Main)], slots[i], text)
      requires TmpOnly(card.files, card.trace, was, before, key)
      modifies card
      ensures card.Valid() && card.faults >= old(card.faults) && (!ok ==> card.faults > old(card.faults))
      ensures Sidecar(key, Tmp) in card.files && OnlyAt(card.files, old(card.files), Sidecar(key, Tmp))
      ensures TmpOnly(card.files, card.trace, was, before, key)
      ensures ok ==> card.files[Sidecar(key, Tmp)]
                     == old(card.files)[Sidecar(key, Tmp)] + EncodeRecord(slots[i], text, VERSION)
      ensures ok ==> offset == |old(card.files)[Sidecar(key, Tmp)]| + MetaSize(VERSION) + 2
    {
      offset := 0;
      var length := if replacement.Some? then |replacement.value| else slots[i].textLength;
      ok := AppendTmp(EncodeMeta(slots[i], VERSION), was, before);
      if !ok { return; }
      ok := AppendTmp(Le(length, 2), was, before);
      if !ok { return; }
      offset := |card.files[Sidecar(key, Tmp)]|;
      ok := WriteText(i, replacement, text, was, before);
      ThreePieces(old(card.files)[Sidecar(key, Tmp)], EncodeMeta(slots[i], VERSION), Le(length, 2), text);
    }

    method DropTmp(ghost was: Files, ghost before: seq<Files>)
      requires card.Valid() && TmpOnly(card.files, card.trace, was, before, key)
      modifies card
      ensures card.Valid() && card.faults >= old(card.faults)
      ensures TmpOnly(card.files, card.trace, was, before, key)
    {
      var _ := card.Remove(Sidecar(key, Tmp));
      TmpOnlySteps(card.files, card.trace, old(card.files), old(card.trace), key);
      TmpOnlyThenTmpOnly(card.files, card.trace, old(card.files), old(card.trace), was, before, key);
    }

    function MainFile(): Option<Data>
      reads this, card
    {
      if Sidecar(key, Main) in card.files then Some(card.files[Sidecar(key, Main)]) else None
    }

    /** Writes record `i` after the ones before it, and notes where its text went. */
    method WriteNext(i: nat, replacement: Option<Data>, index: nat, offsets: seq<nat>,
                     ghost was: Files, ghost before: seq<Files>)
      returns (ok: bool, more: seq<nat>)
      requires card.Valid() && i < size <= |slots| && |texts| == size
      requires SourcedAt(MainFile(), slots[i], texts[i], ReplacementFor(replacement, index, i))
      requires Sidecar(key, Tmp) in card.files
      requires Written(card.files[Sidecar(key, Tmp)], header, List(), texts, offsets, i)
      requires TmpOnly(card.files, card.trace, was, before, key)
      modifies card
      ensures card.Valid() && card.faults >= old(card.faults) && (!ok ==> card.faults > old(card.faults))
      ensures Sidecar(key, Tmp) in card.files && OnlyAt(card.files, old(card.files), Sidecar(key, Tmp))
      ensures TmpOnly(card.files, card.trace, was, before, key)
      ensures ok ==> Written(card.files[Sidecar(key, Tmp)], header, List(), texts, more, i + 1)
    {
      ghost var sofar := card.files[Sidecar(key, Tmp)];
      var offset;
      ok, offset := WriteRecord(i, ReplacementFor(replacement, index, i), texts[i], was, before);
      more := offsets + [offset];
      if ok {
        WrittenMore(sofar, header, List(), texts, offsets, i, offset);
      }
    }

    /** Writes the records. */
    method WriteRecords(replacement: Option<Data>, index: nat, ghost was: Files, ghost before: seq<Files>)
      returns (ok: bool, offsets: seq<nat>)
      requires card.Valid() && size <= |slots| && |texts| == size
      requires Sourced(MainFile(), List(), texts, replacement, index)
      requires Sidecar(key, Tmp) in card.files && card.files[Sidecar(key, Tmp)] == EncodeHead(header, size, VERSION)
      requires TmpOnly(card.files, card.trace, was, before, key)
      modifies card
      ensures card.Valid() && card.faults >= old(card.faults) && (!ok ==> card.faults > old(card.faults))
      ensures Sidecar(key, Tmp) in card.files && OnlyAt(card.files, old(card.files), Sidecar(key, Tmp))
      ensures TmpOnly(card.files, card.trace, was, before, key)
      ensures ok ==> Written(card.files[Sidecar(key, Tmp)], header, List(), texts, offsets, size)
    {
      offsets := [];
      ok := true;
      var i := 0;
      WrittenNothing(header, List(), texts);
      while i < size
        invariant 0 <= i <= size && card.Valid() && card.faults >= old(card.faults)
        invariant Sidecar(key, Tmp) in card.files && OnlyAt(card.files, old(card.files), Sidecar(key, Tmp))
        invariant TmpOnly(card.files, card.trace, was, before, key)
        invariant Written(card.files[Sidecar(key, Tmp)], header, List(), texts, offsets, i)
      {
        assert MainFile() == old(MainFile());
        assert SourcedAt(MainFile(), List()[i], texts[i], ReplacementFor(replacement, index, i));
        ok, offsets := WriteNext(i, replacement, index, offsets, was, before);
        if !ok { return; }
        i := i + 1;
      }
    }

    /** Opens what the rewrite reads and writes, and writes the whole temporary file. */
    method WriteTemp(replacement: Option<Data>, index: nat) returns (ok: bool, offsets: seq<nat>)
      requires card.Valid() && size <= |slots| && |texts| == size && size <= 0xFFFF
      requires Sourced(MainFile(), List(), texts, replacement, index)
      modifies card
      ensures card.Valid() && card.faults >= old(card.faults) && (!ok ==> card.faults > old(card.faults))
      ensures TmpOnly(card.files, card.trace, old(card.files), old(card.trace), key)
      ensures ok ==> Sidecar(key, Tmp) in card.files
      ensures ok ==> Written(card.files[Sidecar(key, Tmp)], header, List(), texts, offsets, size)
    {
      ghost var was, before := card.files, card.trace;
      offsets := [];
      if Sidecar(key, Main) in card.files {
        ok := card.Try();
        if !ok { return; }
      }
      ok := card.Create(Sidecar(key, Tmp));
      if !ok { return; }
      TmpOnlySteps(card.files, card.trace, was, before, key);
      assert MainFile() == old(MainFile());
      assert [] + EncodeHead(header, size, VERSION) == EncodeHead(header, size, VERSION);
      ok := AppendTmp(EncodeHead(header, size, VERSION), was, before);
      if ok {
        ok, offsets := WriteRecords(replacement, index, was, before);
      }
      if !ok {
        DropTmp(was, before);
      }
    }

    // --- Replacing the store by the temporary file ---

    /** Puts a backup left by an interrupted rewrite back in place and clears what else it left. */
    method RecoverBackup() returns (ok: bool)
      requires card.Valid()
      modifies card
      ensures card.Valid() && card.faults >= old(card.faults) && (!ok ==> card.faults > old(card.faults))
      ensures old(card.trace) <= card.trace
      ensures Steady(card.trace, |old(card.trace)|, key, DurableOf(old(card.files), key))
      ensures DurableOf(card.files, key) == DurableOf(old(card.files), key)
      ensures ok ==> MainFile() == Recovered(card.files, key)
      ensures ok && card.faults == old(card.faults) ==> Sidecar(key, Bak) !in card.files
    {
      if Sidecar(key, Main) !in card.files && Sidecar(key, Bak) in card.files {
        ok := card.Rename(Sidecar(key, Bak), Sidecar(key, Main));
        if !ok { return; }
      }
      if Sidecar(key, Tmp) in card.files {
        var _ := card.Remove(Sidecar(key, Tmp));
      }
      if Sidecar(key, Bak) in card.files && Sidecar(key, Main) in card.files {
        var _ := card.Remove(Sidecar(key, Bak));
      }
      ok := true;
    }

    /** The three renames and removals that make the temporary file the store. */
    method Publish() returns (ok: bool)
      requires card.Valid() && Sidecar(key, Tmp) in card.files && MainFile() == Recovered(card.files, key)
      modifies card
      ensures card.Valid() && card.faults >= old(card.faults) && old(card.trace) <= card.trace
      ensures var before := DurableOf(old(card.files), key);
              Atomic(card.trace, |old(card.trace)|, key, before,
                     before.(contents := Some(old(card.files)[Sidecar(key, Tmp)])), ok)
      ensures ok ==> MainFile() == Some(old(card.files)[Sidecar(key, Tmp)])
      ensures !ok ==> Recovered(card.files, key) == Recovered(old(card.files), key)
      ensures !ok && Sidecar(key, Bak) !in old(card.files) ==> card.faults > old(card.faults)
    {
      ghost var before, after := DurableOf(card.files, key), Some(card.files[Sidecar(key, Tmp)]);
      var hasDestination := Sidecar(key, Main) in card.files;
      ok := true;
      if hasDestination {
        ok := card.Rename(Sidecar(key, Main), Sidecar(key, Bak));
        if !ok {
          var _ := card.Remove(Sidecar(key, Tmp));
        }
      }
      assert Steady(card.trace, |old(card.trace)|, key, before);
      if ok {
        ghost var aside := card.trace;
        ok := MoveIn(hasDestination);
        AtomicAfterSteady(aside, card.trace, |old(card.trace)|, key, before, before.(contents := after), ok);
      }
    }

    /** Makes the temporary file the store, or puts the old store back. */
    method MoveIn(hasDestination: bool) returns (ok: bool)
      requires card.Valid() && Sidecar(key, Tmp) in card.files && Sidecar(key, Main) !in card.files
      requires if hasDestination then Sidecar(key, Bak) in card.files else Recovered(card.files, key) == None
      modifies card
      ensures card.Valid() && card.faults >= old(card.faults) && old(card.trace) <= card.trace
      ensures var before := DurableOf(old(card.files), key);
              Atomic(card.trace, |old(card.trace)|, key, before,
                     before.(contents := Some(old(card.files)[Sidecar(key, Tmp)])), ok)
      ensures ok ==> MainFile() == Some(old(card.files)[Sidecar(key, Tmp)])
      ensures !ok ==> Recovered(card.files, key) == Recovered(old(card.files), key) && card.faults > old(card.faults)
    {
      ghost var before := DurableOf(card.files, key);
      ghost var after, m := before.(contents := Some(card.files[Sidecar(key, Tmp)])), |card.trace|;
      ok := card.Rename(Sidecar(key, Tmp), Sidecar(key, Main));
      if !ok {
        var _ := card.Remove(Sidecar(key, Tmp));
        if hasDestination {
          var _ := card.Rename(Sidecar(key, Bak), Sidecar(key, Main));
        }
        return;
      }
      if hasDestination && Sidecar(key, Bak) in card.files {
        var _ := card.Remove(Sidecar(key, Bak));
      }
      assert SwitchesAt(card.trace, m, m, key, before, after);
    }

    /** Points every record at the text the rewrite gave it. */
    method MoveOffsets(offsets: seq<nat>)
      requires size <= |slots| && |offsets| == size
      modifies this`slots
      ensures |slots| == |old(slots)|
      ensures Moved(List(), old(List()), offsets)
    {
      var i := 0;
      while i < size
        invariant 0 <= i <= size <= |slots| == |old(slots)|
        invariant forall j :: 0 <= j < i ==> slots[j] == old(slots[j]).(textOffset := offsets[j] % 0x1_0000_0000)
        invariant forall j :: i <= j < size ==> slots[j] == old(slots[j])
      {
        slots := slots[i := slots[i].(textOffset := offsets[i] % 0x1_0000_0000)];
        i := i + 1;
      }
    }

    /** The card went through a rewrite as this list, or through nothing that survives. */
    ghost predicate SavesOrNot(was: Files, before: seq<Files>, h: Header, cs: seq<Clipping>, ts: seq<Data>, done: bool)
      requires |ts| == |cs|
      reads this, card
    {
      var view := DurableOf(was, key);
      Atomic(card.trace, |before|, key, view, view.(contents := Some(EncodeStore(h, cs, ts, VERSION))), done)
    }

    /** The rewrite on the card, from the recovery of an old backup to the last rename. */
    method RewriteCard(replacement: Option<Data>, index: nat) returns (ok: bool, offsets: seq<nat>)
      requires card.Valid() && size <= |slots| && size <= 0xFFFF
      requires Sourced(Recovered(card.files, key), List(), texts, replacement, index)
      modifies card
      ensures card.Valid() && card.faults >= old(card.faults) && (!ok ==> card.faults > old(card.faults))
      ensures old(card.trace) <= card.trace
      ensures SavesOrNot(old(card.files), old(card.trace), header, List(), texts, ok)
      ensures !ok ==> Recovered(card.files, key) == Recovered(old(card.files), key)
      ensures ok ==> Recovered(card.files, key) == Some(EncodeStore(header, List(), texts, VERSION))
      ensures ok ==> Written(EncodeStore(header, List(), texts, VERSION), header, List(), texts, offsets, size)
    {
      ghost var before, from := DurableOf(card.files, key), |card.trace|;
      offsets := [];
      ok := RecoverBackup();
      if !ok { return; }
      ghost var recovered := card.trace;
      ok, offsets := WriteTemp(replacement, index);
      SteadyThenSteady(recovered, card.trace, from, key, before);
      if !ok { return; }
      ghost var written, rewritten := card.trace, card.files[Sidecar(key, Tmp)];
      WrittenAll(rewritten, header, List(), texts, offsets);
      ok := Publish();
      AtomicAfterSteady(written, card.trace, from, key, before, before.(contents := Some(rewritten)), ok);
    }

    /**
     * Rewrites the store as the list, with `replacement` as the text of clipping `index` if there is one.
     * Whenever the power is cut, what survives is the old file or the new one, and the result tells which.
     */
    method WriteToFile(replacement: Option<Data>, index: nat) returns (ok: bool)
      requires card.Valid() && size <= |slots| && limit <= 0xFFFF
      requires Sourced(Recovered(card.files, key), List(), texts, replacement, index)
      modifies card, this`slots
      ensures card.Valid() && size <= |slots| && card.faults >= old(card.faults) && old(card.trace) <= card.trace
      ensures SavesOrNot(old(card.files), old(card.trace), header, old(List()), texts, ok)
      ensures !ok ==> slots == old(slots) && Recovered(card.files, key) == Recovered(old(card.files), key)
      ensures ok ==> loaded && |slots| == |old(slots)| && SameClippings(List(), old(List()))
      ensures ok ==> Recovered(card.files, key) == Some(EncodeStore(header, old(List()), texts, VERSION))
      ensures ok ==> IndexedAll(Recovered(card.files, key), List(), texts)
      ensures ok ==> Holds(Recovered(card.files, key), limit, List(), texts)
      ensures !ok ==> !CanWrite(replacement) || card.faults > old(card.faults)
    {
      if !loaded || !HeaderFits(header) || size > limit || (replacement.Some? && |replacement.value| > TEXT_MAX) {
        return false;
      }
      if size > 0 {
        ok := card.Try();
        if !ok { return; }
      }
      ok := RewriteList(replacement, index);
    }

    /** Rewrites the store once its checks have passed. */
    method RewriteList(replacement: Option<Data>, index: nat) returns (ok: bool)
      requires card.Valid() && size <= |slots| && size <= limit <= 0xFFFF && HeaderFits(header)
      requires replacement.Some? ==> |replacement.value| <= TEXT_MAX
      requires Sourced(Recovered(card.files, key), List(), texts, replacement, index)
      modifies card, this`slots
      ensures card.Valid() && size <= |slots| && card.faults >= old(card.faults) && old(card.trace) <= card.trace
      ensures SavesOrNot(old(card.files), old(card.trace), header, old(List()), texts, ok)
      ensures !ok ==> slots == old(slots) && Recovered(card.files, key) == Recovered(old(card.files), key)
      ensures !ok ==> card.faults > old(card.faults)
      ensures ok ==> |slots| == |old(slots)| && SameClippings(List(), old(List()))
      ensures ok ==> Recovered(card.files, key) == Some(EncodeStore(header, old(List()), texts, VERSION))
      ensures ok ==> IndexedAll(Recovered(card.files, key), List(), texts)
      ensures ok ==> Holds(Recovered(card.files, key), limit, List(), texts)
    {
      SourcedIsWritable(Recovered(card.files, key), List(), texts, replacement, index);
      var offsets;
      ok, offsets := RewriteCard(replacement, index);
      if ok {
        PointAt(offsets);
      }
    }

    /** Points the list into the file it was just written to. */
    method PointAt(offsets: seq<nat>)
      requires size <= |slots| && |texts| == size <= limit <= 0xFFFF && HeaderFits(header)
      requires Writable(List(), texts, VERSION)
      requires forall i :: 0 <= i < size ==> |texts[i]| == slots[i].textLength
      requires Written(EncodeStore(header, List(), texts, VERSION), header, List(), texts, offsets, size)
      modifies this`slots
      ensures size <= |slots| == |old(slots)| && SameClippings(List(), old(List()))
      ensures IndexedAll(Some(EncodeStore(header, old(List()), texts, VERSION)), List(), texts)
      ensures Holds(Some(EncodeStore(header, old(List()), texts, VERSION)), limit, List(), texts)
    {
      ghost var was := List();
      MoveOffsets(offsets);
      MovedSame(List(), was, offsets);
      MovedIndexed(header, was, texts, offsets, List());
      RewrittenHolds(header, was, texts, limit, List());
    }

    /** What a rewrite checks before it touches the card. */
    predicate CanWrite(replacement: Option<Data>)
      reads this
    {
      loaded && HeaderFits(header) && size <= limit && (replacement.Some? ==> |replacement.value| <= TEXT_MAX)
    }

    // --- The list ---

    /** Holds between calls: every clipping has its own text in the file that survives, and unless something
        waits to be saved that file is the list. */
    ghost predicate Valid()
      reads this, card
    {
      && card.Valid()
      && size <= |slots| && size <= limit <= 0xFFFF
      && (!loaded ==> size == 0)
      && IndexedAll(Recovered(card.files, key), List(), texts)
      && (loaded && !dirty ==> Holds(Recovered(card.files, key), limit, List(), texts))
    }

    /** Makes room for `count` records, a block at a time. */
    method ReserveClippings(count: nat) returns (ok: bool)
      requires size <= |slots|
      modifies this`slots, card`faults
      ensures card.faults >= old(card.faults)
      ensures |slots| >= |old(slots)| && slots[..|old(slots)|] == old(slots)
      ensures ok ==> |slots| >= count && count <= limit
      ensures !ok ==> count > limit || card.faults > old(card.faults)
    {
      if count > limit { return false; }
      while |slots| < count
        invariant |slots| >= |old(slots)| && slots[..|old(slots)|] == old(slots)
        invariant card.faults >= old(card.faults)
      {
        ok := card.Try();
        if !ok { return; }
        slots := slots + seq(BLOCK, _ => EMPTY_CLIPPING);
      }
      ok := true;
    }

    /** Takes record `index` out of the list. */
    method ShiftOut(index: nat)
      requires index < size <= |slots|
      modifies this`slots, this`size
      ensures size == old(size) - 1 && |slots| == |old(slots)|
      ensures List() == Without(old(List()), index)
    {
      ghost var was := slots;
      var i := index;
      while i + 1 < size
        invariant index <= i < size == old(size) <= |slots| == |was|
        invariant slots == was[..index] + was[index + 1..i + 1] + was[i..]
      {
        ShiftedOn(was, index, i);
        slots := slots[i := slots[i + 1]];
        i := i + 1;
      }
      size := size - 1;
    }

    /** Puts it back. */
    method ShiftIn(index: nat, c: Clipping)
      requires index <= size < |slots|
      modifies this`slots, this`size
      ensures size == old(size) + 1 && |slots| == |old(slots)|
      ensures List() == old(List())[..index] + [c] + old(List())[index..]
    {
      ghost var was := slots;
      var i := size;
      while i > index
        invariant index <= i <= size == old(size) < |slots| == |was|
        invariant slots == was[..i + 1] + was[i..size] + was[size + 1..]
      {
        slots := slots[i := slots[i - 1]];
        i := i - 1;
      }
      slots := slots[index := c];
      size := size + 1;
    }

    method SaveToFile() returns (ok: bool)
      requires Valid()
      modifies card, this`slots, this`dirty
      ensures Valid() && card.faults >= old(card.faults) && old(card.trace) <= card.trace
      ensures SavesOrNot(old(card.files), old(card.trace), header, old(List()), texts, ok && old(dirty))
      ensures SameClippings(List(), old(List())) && |slots| == |old(slots)|
      ensures !ok ==> slots == old(slots) && dirty == old(dirty)
      ensures ok ==> loaded && !dirty
      ensures !ok ==> !CanWrite(None) || card.faults > old(card.faults)
    {
      if !loaded { return false; }
      if !dirty { return true; }
      SourcedAsIs(Recovered(card.files, key), List(), texts);
      ok := WriteToFile(None, 0);
      if ok {
        dirty := false;
      }
    }

    /** Writes the store with one more clipping, or takes it back. */
    method AppendAndWrite(c: Clipping, text: Data) returns (ok: bool)
      requires card.Valid() && size < |slots| && size < limit <= 0xFFFF
      requires IndexedAll(Recovered(card.files, key), List(), texts)
      requires Storable(c) && c.textLength == |text|
      modifies this`slots, this`size, this`texts, card
      ensures card.Valid() && card.faults >= old(card.faults) && old(card.trace) <= card.trace
      ensures SavesOrNot(old(card.files), old(card.trace), header, old(List()) + [c], old(texts) + [text], ok)
      ensures size <= |slots| && size == old(size) + (if ok then 1 else 0)
      ensures ok ==> loaded && SameClippings(List(), old(List()) + [c]) && texts == old(texts) + [text]
      ensures ok ==> Holds(Recovered(card.files, key), limit, List(), texts)
      ensures !ok ==> List() == old(List()) && texts == old(texts)
      ensures !ok ==> Recovered(card.files, key) == Recovered(old(card.files), key)
      ensures IndexedAll(Recovered(card.files, key), List(), texts)
      ensures !ok ==> !old(CanWrite(Some(text))) || card.faults > old(card.faults)
    {
      SourcedAppend(Recovered(card.files, key), List(), texts, c, text);
      slots := slots[size := c];
      size := size + 1;
      texts := texts + [text];
      assert List() == old(List()) + [c];
      ok := WriteToFile(Some(text), size - 1);
      if !ok {
        size := size - 1;
        texts := texts[..size];
        assert List() == old(List()) && texts == old(texts);
      }
    }

    method AddClipping(selection: Selection, now: int, text: Data) returns (result: AddResult)
      requires Valid() && InWidths(selection)
      modifies this`slots, this`size, this`texts, this`dirty, card
      ensures Valid() && card.faults >= old(card.faults) && old(card.trace) <= card.trace
      ensures SavesOrNot(old(card.files), old(card.trace), header,
                         old(List()) + [NewClipping(selection, Stamp(now), |text|)], old(texts) + [text], result.Added?)
      ensures result.Added? ==> OneMore(old(List()), List(), selection, now)
      ensures result.Added? ==> texts == old(texts) + [text] && !dirty
      ensures !result.Added? ==> List() == old(List()) && texts == old(texts)
      ensures result.LimitReached? <==> old(size) >= limit
      ensures result.SaveFailed? ==> !old(CanWrite(Some(text))) || card.faults > old(card.faults)
      ensures header == old(header) && key == old(key) && loaded == old(loaded)
    {
      if size >= limit { return LimitReached; }
      if !loaded || |text| > TEXT_MAX { return SaveFailed; }
      var ok := AppendNew(selection, now, text);
      result := if ok then Added else SaveFailed;
    }

    /** Makes the clipping and saves the list with it. */
    method AppendNew(selection: Selection, now: int, text: Data) returns (ok: bool)
      requires Valid() && loaded && size < limit && InWidths(selection) && |text| <= TEXT_MAX
      modifies this`slots, this`size, this`texts, this`dirty, card
      ensures Valid() && card.faults >= old(card.faults) && old(card.trace) <= card.trace && (ok ==> !dirty)
      ensures SavesOrNot(old(card.files), old(card.trace), header,
                         old(List()) + [NewClipping(selection, Stamp(now), |text|)], old(texts) + [text], ok)
      ensures ok ==> OneMore(old(List()), List(), selection, now) && texts == old(texts) + [text]
      ensures !ok ==> List() == old(List()) && texts == old(texts)
      ensures !ok ==> !old(CanWrite(Some(text))) || card.faults > old(card.faults)
    {
      ok := ReserveClippings(size + 1);
      assert List() == old(List());
      if !ok { return; }
      NewClippingFits(selection, now, |text|);
      ok := AppendMarked(NewClipping(selection, Stamp(now), |text|), text);
      if ok {
        NewIsMade(old(List()), selection, now, |text|, List());
      }
    }

    /** Writes the store with one more clipping, and marks whether the list has still to be saved. */
    method AppendMarked(c: Clipping, text: Data) returns (ok: bool)
      requires Valid() && loaded && size < |slots| && size < limit && Storable(c) && c.textLength == |text|
      modifies this`slots, this`size, this`texts, this`dirty, card
      ensures Valid() && card.faults >= old(card.faults) && old(card.trace) <= card.trace && dirty == !ok
      ensures SavesOrNot(old(card.files), old(card.trace), header, old(List()) + [c], old(texts) + [text], ok)
      ensures ok ==> SameClippings(List(), old(List()) + [c]) && texts == old(texts) + [text]
      ensures !ok ==> List() == old(List()) && texts == old(texts)
      ensures !ok ==> !old(CanWrite(Some(text))) || card.faults > old(card.faults)
    {
      ok := AppendAndWrite(c, text);
      dirty := !ok;
    }

    // --- The deletion journal ---

    /** From trace length `from` on, the card went from `before` through nothing else to one more deletion. */
    ghost predicate Queues(from: nat, before: Durable, record: Data, done: bool)
      reads this, card
    {
      Atomic(card.trace, from, key, before, before.(deletions := before.deletions + record), done)
    }

    /** Drops a record that an interrupted append left torn. */
    method TruncateDeletionTail() returns (ok: bool)
      requires card.Valid() && Sidecar(key, Deleted) in card.files
      modifies card
      ensures card.Valid() && card.faults >= old(card.faults) && old(card.trace) <= card.trace
      ensures Steady(card.trace, |old(card.trace)|, key, DurableOf(old(card.files), key))
      ensures OnlyAt(card.files, old(card.files), Sidecar(key, Deleted)) && Sidecar(key, Deleted) in card.files
      ensures ok ==> card.files[Sidecar(key, Deleted)] == Whole(old(card.files)[Sidecar(key, Deleted)])
      ensures !ok ==> card.files == old(card.files) && card.faults > old(card.faults)
    {
      var journal := card.files[Sidecar(key, Deleted)];
      var tail := |journal| % ID_SIZE;
      if tail == 0 { return true; }
      WholeIsWhole(journal);
      ok := card.Truncate(Sidecar(key, Deleted), |journal| - tail);
    }

    /** Appends a whole record, or leaves what survives as it was. */
    method AppendDeletion(record: Data) returns (ok: bool)
      requires card.Valid() && Sidecar(key, Deleted) in card.files && |record| == ID_SIZE
      requires |card.files[Sidecar(key, Deleted)]| % ID_SIZE == 0
      modifies card
      ensures card.Valid() && card.faults >= old(card.faults) && old(card.trace) <= card.trace
      ensures Queues(|old(card.trace)|, DurableOf(old(card.files), key), record, ok)
      ensures Recovered(card.files, key) == Recovered(old(card.files), key)
      ensures ok ==> Deletions(card.files, key) == Deletions(old(card.files), key) + record
      ensures !ok ==> Deletions(card.files, key) == Deletions(old(card.files), key) && card.faults > old(card.faults)
    {
      var originalSize := |card.files[Sidecar(key, Deleted)]|;
      ok := card.Append(Sidecar(key, Deleted), record);
      AppendedQueues(card.files, card.trace, old(card.files), old(card.trace), key, record, ok);
      if !ok {
        ghost var cut := card.trace;
        AppendedLength(card.files, card.trace, old(card.files), old(card.trace), key, record);
        var _ := card.Truncate(Sidecar(key, Deleted), originalSize);
        assert card.files[Sidecar(key, Deleted)][..originalSize] == old(card.files)[Sidecar(key, Deleted)];
      }
    }

    /** Records that a clipping is gone, so that it can be reported. */
    method QueueDeletion(record: Data) returns (ok: bool)
      requires card.Valid() && |record| == ID_SIZE
      modifies card
      ensures card.Valid() && card.faults >= old(card.faults) && old(card.trace) <= card.trace
      ensures Queues(|old(card.trace)|, DurableOf(old(card.files), key), record, ok)
      ensures Recovered(card.files, key) == Recovered(old(card.files), key)
      ensures ok ==> Deletions(card.files, key) == Deletions(old(card.files), key) + record
      ensures !ok ==> Deletions(card.files, key) == Deletions(old(card.files), key) && card.faults > old(card.faults)
    {
      ghost var view, from := DurableOf(card.files, key), |card.trace|;
      ok := card.OpenAppend(Sidecar(key, Deleted));
      if !ok { return; }
      ghost var created := card.trace;
      ok := TruncateDeletionTail();
      SteadyThenSteady(created, card.trace, from, key, view);
      if !ok { return; }
      ghost var ready := card.trace;
      ok := AppendDeletion(record);
      AtomicAfterSteady(ready, card.trace, from, key, view, view.(deletions := view.deletions + record), ok);
    }

    // --- Removing and changing clippings ---

    /** Writes the store without clipping `index`, or puts it back. */
    method WriteWithout(index: nat) returns (ok: bool)
      requires card.Valid() && loaded && index < size <= |slots| && size <= limit <= 0xFFFF
      requires IndexedAll(Recovered(card.files, key), List(), texts)
      modifies this`slots, this`size, this`texts, card
      ensures card.Valid() && card.faults >= old(card.faults) && old(card.trace) <= card.trace
      ensures SavesOrNot(old(card.files), old(card.trace), header,
                         Without(old(List()), index), Without(old(texts), index), ok)
      ensures size <= |slots| && size == old(size) - (if ok then 1 else 0)
      ensures ok ==> SameClippings(List(), Without(old(List()), index)) && texts == Without(old(texts), index)
      ensures ok ==> Holds(Recovered(card.files, key), limit, List(), texts)
      ensures !ok ==> List() == old(List()) && texts == old(texts)
      ensures !ok ==> Recovered(card.files, key) == Recovered(old(card.files), key)
      ensures IndexedAll(Recovered(card.files, key), List(), texts)
      ensures !ok ==> !old(CanWrite(None)) || card.faults > old(card.faults)
    {
      var c := slots[index];
      SourcedWithout(Recovered(card.files, key), List(), texts, index);
      ShiftOut(index);
      texts := Without(texts, index);
      ok := WriteToFile(None, index);
      if !ok {
        WithoutPutBack(old(List()), index);
        ShiftIn(index, c);
        texts := old(texts);
      }
    }

    /** Rewrites the store once the deletion of clipping `index` is queued. */
    method RemoveQueued(index: nat, ghost was: Files, ghost before: seq<Files>) returns (ok: bool)
      requires card.Valid() && loaded && index < size <= |slots| && size <= limit <= 0xFFFF && slots[index].id[0] != 0
      requires IndexedAll(Recovered(card.files, key), List(), texts)
      requires before <= card.trace && Queues(|before|, DurableOf(was, key), slots[index].id, true)
      modifies this`slots, this`size, this`texts, this`dirty, card
      ensures Removed(was, before, old(List()), old(texts), index, ok) && dirty == !ok
      ensures card.faults >= old(card.faults) && (!ok ==> !old(CanWrite(None)) || card.faults > old(card.faults))
      ensures !ok ==> Recovered(card.files, key) == Recovered(old(card.files), key)
    {
      ghost var queued, call := card.trace, RemovalOf(List(), texts, index);
      ok := WriteMarked(index);
      RemovalLeaves(queued, card.trace, |before|, key, DurableOf(was, key), call.record, call.contents, ok);
    }

    /** Writes the store without clipping `index`, and marks whether that has still to be saved. */
    method WriteMarked(index: nat) returns (ok: bool)
      requires card.Valid() && loaded && index < size <= |slots| && size <= limit <= 0xFFFF
      requires IndexedAll(Recovered(card.files, key), List(), texts)
      modifies this`slots, this`size, this`texts, this`dirty, card
      ensures ListRemoved(old(List()), old(texts), index, ok) && dirty == !ok && old(card.trace) <= card.trace
      ensures SavesOrNot(old(card.files), old(card.trace), header,
                         Without(old(List()), index), Without(old(texts), index), ok)
      ensures card.faults >= old(card.faults) && (!ok ==> !old(CanWrite(None)) || card.faults > old(card.faults))
      ensures !ok ==> Recovered(card.files, key) == Recovered(old(card.files), key)
    {
      ok := WriteWithout(index);
      dirty := !ok;
    }

    /** Removes a clipping that a server knows: first queues its deletion, then rewrites the store. */
    method RemoveIdentified(index: nat) returns (ok: bool)
      requires card.Valid() && loaded && index < size <= |slots| && size <= limit <= 0xFFFF && slots[index].id[0] != 0
      requires IndexedAll(Recovered(card.files, key), List(), texts)
      modifies this`slots, this`size, this`texts, this`dirty, card
      ensures Removed(old(card.files), old(card.trace), old(List()), old(texts), index, ok)
      ensures card.faults >= old(card.faults) && (!ok ==> !old(CanWrite(None)) || card.faults > old(card.faults))
      ensures if ok then !dirty else dirty || dirty == old(dirty)
      ensures !ok ==> Recovered(card.files, key) == Recovered(old(card.files), key)
    {
      ok := QueueDeletion(slots[index].id);
      if ok {
        ok := RemoveQueued(index, old(card.files), old(card.trace));
      } else {
        ghost var contents := EncodeStore(header, Without(List(), index), Without(texts, index), VERSION);
        UnqueuedLeaves(card.trace, |old(card.trace)|, key, DurableOf(old(card.files), key), slots[index].id, contents,
                       false);
      }
    }

    /** Removes a clipping that no server knows. */
    method RemoveUnidentified(index: nat) returns (ok: bool)
      requires card.Valid() && loaded && index < size <= |slots| && size <= limit <= 0xFFFF && slots[index].id[0] == 0
      requires IndexedAll(Recovered(card.files, key), List(), texts)
      modifies this`slots, this`size, this`texts, this`dirty, card
      ensures Removed(old(card.files), old(card.trace), old(List()), old(texts), index, ok)
      ensures card.faults >= old(card.faults) && (!ok ==> !old(CanWrite(None)) || card.faults > old(card.faults))
      ensures dirty == !ok
      ensures !ok ==> Recovered(card.files, key) == Recovered(old(card.files), key)
    {
      ghost var view, from := DurableOf(card.files, key), |card.trace|;
      ghost var contents := EncodeStore(header, Without(List(), index), Without(texts, index), VERSION);
      ok := WriteMarked(index);
      UnqueuedLeaves(card.trace, from, key, view, [], contents, ok);
    }

    ghost predicate ListRemoved(cs: seq<Clipping>, ts: seq<Data>, index: nat, ok: bool)
      requires index < |cs| == |ts|
      reads this, card
    {
      && card.Valid() && size <= |slots| && size == |cs| - (if ok then 1 else 0)
      && (ok ==> SameClippings(List(), Without(cs, index)) && texts == Without(ts, index))
      && (ok ==> Holds(Recovered(card.files, key), limit, List(), texts))
      && (!ok ==> List() == cs && texts == ts)
      && IndexedAll(Recovered(card.files, key), List(), texts)
    }

    /** The list and the card after an attempt to remove clipping `index`. */
    ghost predicate Removed(was: Files, before: seq<Files>, cs: seq<Clipping>, ts: seq<Data>, index: nat, ok: bool)
      requires index < |cs| == |ts|
      reads this, card
    {
      && before <= card.trace && ListRemoved(cs, ts, index, ok)
      && Leaves(card.trace, |before|, key, DurableOf(was, key), RemovalOf(cs, ts, index), ok)
      && (ok ==> DurableOf(card.files, key) == After(RemovalOf(cs, ts, index), DurableOf(was, key)))
    }

    method RemoveClippingAt(index: nat) returns (ok: bool)
      requires Valid()
      modifies this, card
      ensures Valid() && card.faults >= old(card.faults)
      ensures header == old(header) && key == old(key) && loaded == old(loaded)
      ensures old(loaded) && index < old(size) ==>
        Removed(old(card.files), old(card.trace), old(List()), old(texts), index, ok)
      ensures !old(loaded) || index >= old(size) ==>
        && !ok && slots == old(slots) && size == old(size)
        && card.files == old(card.files) && card.trace == old(card.trace)
      ensures !ok ==> index >= old(size) || !old(CanWrite(None)) || card.faults > old(card.faults)
    {
      if !loaded || index >= size { return false; }
      if slots[index].id[0] != 0 {
        ok := RemoveIdentified(index);
      } else {
        ok := RemoveUnidentified(index);
      }
    }

    ghost function RemovalOf(cs: seq<Clipping>, ts: seq<Data>, index: nat): (call: Call)
      requires index < |cs| == |ts|
      reads this
      ensures Proper(call)
    {
      RecordNamed(cs[index].id);
      Removal(if cs[index].id[0] != 0 then cs[index].id else [],
              EncodeStore(header, Without(cs, index), Without(ts, index), VERSION))
    }

    /** First clipping with the id of `c`, or the end of the list. */
    method FindId(c: Clipping) returns (index: nat)
      requires size <= |slots|
      ensures index == FirstWithId(List(), c)
    {
      index := 0;
      assert List()[0..] == List();
      while index < size && !SameId(slots[index], c)
        invariant index <= size
        invariant FirstWithId(List(), c) == index + FirstWithId(List()[index..], c)
      {
        assert List()[index..][1..] == List()[index + 1..];
        index := index + 1;
      }
    }

    /** Writes the store with clipping `index` replaced, or restores it. */
    method ReplaceAndWrite(index: nat, c: Clipping, text: Data) returns (ok: bool)
      requires card.Valid() && index < size <= |slots| && size <= limit <= 0xFFFF
      requires IndexedAll(Recovered(card.files, key), List(), texts)
      requires Storable(c) && c.textLength == |text|
      modifies this`slots, this`texts, card
      ensures card.Valid() && card.faults >= old(card.faults) && old(card.trace) <= card.trace
      ensures SavesOrNot(old(card.files), old(card.trace), header, old(List())[index := c], old(texts)[index := text],
                         ok)
      ensures size <= |slots|
      ensures ok ==> loaded && SameClippings(List(), old(List())[index := c]) && texts == old(texts)[index := text]
      ensures ok ==> Holds(Recovered(card.files, key), limit, List(), texts)
      ensures !ok ==> List() == old(List()) && texts == old(texts)
      ensures !ok ==> Recovered(card.files, key) == Recovered(old(card.files), key)
      ensures IndexedAll(Recovered(card.files, key), List(), texts)
      ensures !ok ==> !old(CanWrite(Some(text))) || card.faults > old(card.faults)
    {
      var previous := slots[index];
      SourcedReplace(Recovered(card.files, key), List(), texts, index, c, text);
      slots := slots[index := c];
      texts := texts[index := text];
      assert List() == old(List())[index := c];
      ok := WriteToFile(Some(text), index);
      if !ok {
        slots := slots[index := previous];
        texts := old(texts);
        assert List() == old(List());
      }
    }

    /** What a change from the server leaves in the list and on the card. */
    ghost predicate RemoteApplied(was: Files, before: seq<Files>, cs: seq<Clipping>, ts: seq<Data>, ok: bool)
      requires |ts| == |cs|
      reads this, card
    {
      && card.Valid() && before <= card.trace && size <= |slots|
      && IndexedAll(Recovered(card.files, key), List(), texts)
      && (ok ==> SameClippings(List(), cs) && texts == ts)
      && var call := Rewrite(EncodeStore(header, cs, ts, VERSION));
         && Leaves(card.trace, |before|, key, DurableOf(was, key), call, ok)
         && (ok ==> DurableOf(card.files, key) == After(call, DurableOf(was, key)))
    }

    /** The branch of ApplyRemote that finds no clipping with the id. */
    method AddRemote(c: Clipping, text: Data) returns (ok: bool)
      requires Valid() && loaded && |text| <= TEXT_MAX && Storable(c) && c.textLength == |text|
      modifies this`slots, this`size, this`texts, card
      ensures RemoteApplied(old(card.files), old(card.trace), old(List()) + [c], old(texts) + [text], ok)
      ensures Valid() && card.faults >= old(card.faults)
      ensures !ok ==> List() == old(List()) && texts == old(texts)
      ensures !ok ==> old(size) >= limit || !old(CanWrite(Some(text))) || card.faults > old(card.faults)
    {
      if size >= limit { return false; }
      ok := ReserveClippings(size + 1);
      assert List() == old(List());
      if !ok { return; }
      ok := AppendAndWrite(c, text);
      RewriteLeaves(card.trace, |old(card.trace)|, key, DurableOf(old(card.files), key),
                    EncodeStore(header, old(List()) + [c], old(texts) + [text], VERSION), ok);
    }

    /** The branch of ApplyRemote that deletes clipping `index`. */
    method DeleteRemote(index: nat) returns (ok: bool)
      requires Valid() && loaded && index < size
      modifies this`slots, this`size, this`texts, card
      ensures RemoteApplied(old(card.files), old(card.trace), Without(old(List()), index), Without(old(texts), index),
                            ok)
      ensures Valid() && card.faults >= old(card.faults)
      ensures !ok ==> List() == old(List()) && texts == old(texts)
      ensures !ok ==> !old(CanWrite(None)) || card.faults > old(card.faults)
    {
      ok := WriteWithout(index);
      RewriteLeaves(card.trace, |old(card.trace)|, key, DurableOf(old(card.files), key),
                    EncodeStore(header, Without(old(List()), index), Without(old(texts), index), VERSION), ok);
    }

    /** The branch of ApplyRemote that replaces clipping `index`. */
    method ReplaceRemote(index: nat, c: Clipping, text: Data) returns (ok: bool)
      requires Valid() && loaded && index < size
      requires |text| <= TEXT_MAX && Storable(c) && c.textLength == |text|
      modifies this`slots, this`texts, card
      ensures RemoteApplied(old(card.files), old(card.trace), old(List())[index := c], old(texts)[index := text], ok)
      ensures Valid() && card.faults >= old(card.faults)
      ensures !ok ==> List() == old(List()) && texts == old(texts)
      ensures !ok ==> !old(CanWrite(Some(text))) || card.faults > old(card.faults)
    {
      ok := ReplaceAndWrite(index, c, text);
      RewriteLeaves(card.trace, |old(card.trace)|, key, DurableOf(old(card.files), key),
                    EncodeStore(header, old(List())[index := c], old(texts)[index := text], VERSION), ok);
    }

    /** Takes over a clipping, or its deletion, from the server. */
    method ApplyRemote(c: Clipping, text: Data, deleted: bool) returns (ok: bool)
      requires Valid()
      requires !deleted ==> c.textLength == |text| && (|text| <= TEXT_MAX ==> Storable(c))
      modifies this`slots, this`size, this`texts, card
      ensures Valid() && card.faults >= old(card.faults)
      ensures if ok && Moot(old(List()), c, deleted) then
                && card.files == old(card.files) && card.trace == old(card.trace)
                && List() == old(List()) && texts == old(texts)
              else RemoteApplied(old(card.files), old(card.trace), Applied(old(List()), c, deleted),
                                 AppliedTexts(old(List()), old(texts), c, text, deleted), ok)
      ensures ok ==> TakenOver(old(List()), old(texts), c, text, deleted, List(), texts)
      ensures !ok ==> List() == old(List()) && texts == old(texts)
      ensures !ok ==> !loaded || (!deleted && |text| > TEXT_MAX) || !HeaderFits(header)
                      || |Applied(old(List()), c, deleted)| > limit || card.faults > old(card.faults)
    {
      if !loaded || (!deleted && |text| > TEXT_MAX) { return false; }
      ok := ChangeRemotely(c, text, deleted);
      if ok {
        AppliedTakesOver(old(List()), old(texts), c, text, deleted, List(), texts);
      }
    }

    /** ApplyRemote once its arguments are checked. */
    method ChangeRemotely(c: Clipping, text: Data, deleted: bool) returns (ok: bool)
      requires Valid() && loaded
      requires !deleted ==> |text| <= TEXT_MAX && Storable(c) && c.textLength == |text|
      modifies this`slots, this`size, this`texts, card
      ensures Valid() && card.faults >= old(card.faults)
      ensures if ok && Moot(old(List()), c, deleted) then
                && card.files == old(card.files) && card.trace == old(card.trace)
                && List() == old(List()) && texts == old(texts)
              else RemoteApplied(old(card.files), old(card.trace), Applied(old(List()), c, deleted),
                                 AppliedTexts(old(List()), old(texts), c, text, deleted), ok)
      ensures ok ==> SameClippings(List(), Applied(old(List()), c, deleted))
      ensures ok ==> texts == AppliedTexts(old(List()), old(texts), c, text, deleted)
      ensures !ok ==> List() == old(List()) && texts == old(texts)
      ensures !ok ==> !HeaderFits(header) || |Applied(old(List()), c, deleted)| > limit
                      || card.faults > old(card.faults)
    {
      var index := FindId(c);
      if index == size {
        if deleted { return true; }
        ok := AddRemote(c, text);
        return;
      }
      if !deleted && slots[index].syncRevision == c.syncRevision && !slots[index].pendingUpload { return true; }
      if deleted {
        ok := DeleteRemote(index);
      } else {
        ok := ReplaceRemote(index, c, text);
      }
    }

    // --- Opening and closing a book ---

    /** Reads one record, the next of those that make up `whole`. */
    method ReadRecord(file: Data, position: nat, version: nat,
                      ghost count: nat, ghost whole: Option<seq<Clipping>>, ghost sofar: seq<Clipping>)
      returns (r: Option<Parsed<Clipping>>)
      requires LEGACY_VERSION <= version <= VERSION && position <= |file| && count > 0
      requires ReadSoFar(whole, sofar, ParseRecords(file[position..], position, version, count))
      modifies card`faults
      ensures card.faults >= old(card.faults)
      ensures r.None? ==> whole == None || card.faults > old(card.faults)
      ensures r.Some? ==> ReadAt(file, position + r.value.used, version, count - 1, whole, sofar + [r.value.value])
    {
      var ok := card.Try();
      if !ok { return None; }
      ReadOneMore(file, position, version, count, whole, sofar);
      r := ParseRecord(file[position..], position, version);
    }

    /** Reads `count` records from `start` on into the list. */
    method ReadRecords(start: nat, version: nat, count: nat) returns (ok: bool)
      requires Sidecar(key, Main) in card.files && start <= |card.files[Sidecar(key, Main)]|
      requires LEGACY_VERSION <= version <= VERSION && size == 0 && count <= |slots|
      modifies this`slots, this`size, card`faults
      ensures card.faults >= old(card.faults) && size <= |slots|
      ensures var read := ParseRecords(card.files[Sidecar(key, Main)][start..], start, version, count);
              if ok then read == Some(List()) else read == None || card.faults > old(card.faults)
    {
      var file := card.files[Sidecar(key, Main)];
      var position: nat := start;
      ghost var whole := ParseRecords(file[start..], start, version, count);
      ReadNothing(file, start, version, count);
      while size < count
        invariant 0 <= size <= count <= |slots| && card.faults >= old(card.faults)
        invariant ReadAt(file, position, version, count - size, whole, List())
      {
        ghost var sofar := List();
        var record := ReadRecord(file, position, version, count - size, whole, sofar);
        if record.None? { return false; }
        slots := slots[size := record.value.value];
        size := size + 1;
        position := position + record.value.used;
        assert List() == sofar + [record.value.value];
      }
      ReadAll(file, position, version, whole, List());
      ok := true;
    }

    /** Reads the store file into the list. */
    method ReadFromFile() returns (ok: bool)
      requires Sidecar(key, Main) in card.files && limit <= 0xFFFF
      modifies this`slots, this`size, this`header, card`faults
      ensures card.faults >= old(card.faults) && size <= |slots|
      ensures ok ==> LoadedFrom(MainFile(), limit, List()) && HeaderFrom(MainFile(), limit, old(header), header)
      ensures !ok ==> Unreadable(MainFile(), limit) || card.faults > old(card.faults)
    {
      var file := card.files[Sidecar(key, Main)];
      size := 0;
      ok := card.Try();
      if !ok { return; }
      var head := ParseHead(file, limit);
      if head.None? { return false; }
      ParseHeadBounds(file, limit);
      var Parsed((version, count, stored), used) := head.value;
      header := header.(title := if header.title == [] then stored.title else header.title,
                        author := if header.author == [] then stored.author else header.author);
      ok := ReserveClippings(count);
      if !ok { return; }
      ok := ReadRecords(used, version, count);
    }

    /** Puts back what an interrupted rewrite moved away. */
    method RecoverForLoad() returns (ok: bool)
      requires card.Valid()
      modifies card
      ensures card.Valid() && card.faults >= old(card.faults) && old(card.trace) <= card.trace
      ensures Steady(card.trace, |old(card.trace)|, key, DurableOf(old(card.files), key))
      ensures Recovered(card.files, key) == Recovered(old(card.files), key)
      ensures if ok then MainFile() == Recovered(card.files, key) else card.faults > old(card.faults)
    {
      ok := true;
      if Sidecar(key, Main) !in card.files && Sidecar(key, Bak) in card.files {
        ok := card.Rename(Sidecar(key, Bak), Sidecar(key, Main));
      }
    }

    /** Loads the list of the recovered store. */
    method LoadList() returns (ok: bool)
      requires card.Valid() && limit <= 0xFFFF && MainFile() == Recovered(card.files, key)
      requires !loaded && !dirty && size == 0 && texts == []
      modifies this`slots, this`size, this`header, this`loaded, this`texts, card`faults
      ensures Valid() && card.faults >= old(card.faults)
      ensures if ok then loaded && LoadedFrom(MainFile(), limit, List()) else !loaded && List() == []
      ensures !ok ==> card.faults > old(card.faults) || Unreadable(MainFile(), limit)
      ensures ok ==> HeaderFrom(MainFile(), limit, old(header), header)
    {
      if Sidecar(key, Main) !in card.files {
        loaded := true;
        return true;
      }
      ok := ReadFromFile();
      FinishLoad(ok);
    }

    /** Takes over the list that was read, or lets go of what was read of it. */
    method FinishLoad(ok: bool)
      requires card.Valid() && limit <= 0xFFFF && MainFile() == Recovered(card.files, key) && MainFile().Some?
      requires !loaded && !dirty && texts == [] && size <= |slots| && (ok ==> LoadedFrom(MainFile(), limit, List()))
      modifies this`slots, this`size, this`loaded, this`texts
      ensures Valid() && if ok then loaded && List() == old(List()) else !loaded && List() == []
    {
      loaded := ok;
      if ok {
        LoadedIsIndexed(MainFile().value, limit);
        texts := StoredTexts(MainFile().value, List());
      } else {
        size, slots := 0, [];
      }
    }

    /** Opens the store of a book. */
    method LoadForBook(filePath: Data, title: Data, author: Data, bookType: string) returns (ok: bool)
      requires card.Valid() && limit <= 0xFFFF
      modifies this, card
      ensures Valid() && card.faults >= old(card.faults) && old(card.trace) <= card.trace
      ensures Steady(card.trace, |old(card.trace)|, hash(filePath), DurableOf(old(card.files), hash(filePath)))
      ensures ok ==> key == hash(filePath) && header.bookPath == filePath && loaded && !dirty
      ensures ok ==> LoadedFrom(Recovered(old(card.files), key), limit, List())
      ensures ok ==> HeaderFrom(Recovered(old(card.files), key), limit, Header(title, author, filePath), header)
      ensures !ok ==> !loaded && List() == []
      ensures !ok && bookType == "epub" && filePath != [] ==>
        card.faults > old(card.faults) || Unreadable(Recovered(old(card.files), hash(filePath)), limit)
    {
      dirty, loaded, size, slots, texts := false, false, 0, [], [];
      if bookType != "epub" || filePath == [] {
        return false;
      }
      header := Header(title, author, filePath);
      key := hash(filePath);
      ok := RecoverForLoad();
      if !ok { return; }
      ok := LoadList();
    }

    // --- Reporting deletions ---

    /** The ids of the clippings in the list. */
    function Live(): set<Data>
      requires size <= |slots|
      reads this
    {
      IdsOf(List())
    }

    method IsLive(id: Data) returns (found: bool)
      requires size <= |slots|
      ensures found <==> id in Live()
    {
      var index := 0;
      while index < size && CString(slots[index].id) != id
        invariant 0 <= index <= size
        invariant forall i :: 0 <= i < index ==> CString(slots[i].id) != id
      {
        index := index + 1;
      }
      found := index < size;
    }

    /** The deletions the journal holds for the server. */
    ghost function Reports(from: nat): seq<Data>
      requires size <= |slots|
      reads this, card
    {
      var journal := Deletions(card.files, key);
      if from <= |journal| then Pending(journal[from..], Live()) else []
    }

    /** The scan of NextDeletion, over a journal of whole records. */
    method ScanDeletions(offset: nat) returns (ok: bool, next: nat, id: Data)
      requires Sidecar(key, Deleted) in card.files && size <= |slots|
      requires var journal := card.files[Sidecar(key, Deleted)];
               |journal| % ID_SIZE == 0 && offset <= |journal| && offset % ID_SIZE == 0
      modifies card`faults
      ensures card.faults >= old(card.faults) && (!ok ==> card.faults > old(card.faults))
      ensures var journal := card.files[Sidecar(key, Deleted)];
              ok && Named(journal) ==>
                if id == [] then Pending(journal[offset..], Live()) == []
                else Reported(journal, offset, next, Live(), id)
    {
      var journal := card.files[Sidecar(key, Deleted)];
      ghost var live := Live();
      next, id := offset, [];
      while next < |journal|
        invariant Silent(journal, offset, next, live) && card.faults >= old(card.faults)
      {
        ScanStep(journal, offset, next, live);
        var record := card.Read(Sidecar(key, Deleted), next, ID_SIZE);
        if record.None? { return false, next, []; }
        id := IdOf(record.value);
        next := next + ID_SIZE;
        var found := IsLive(id);
        if !found { return true, next, id; }
      }
      return true, next, [];
    }

    /** Finds the next deletion from `offset` on; an empty id means that there is none. */
    method NextDeletion(offset: nat) returns (ok: bool, next: nat, id: Data)
      requires card.Valid() && size <= |slots|
      modifies card
      ensures card.Valid() && card.faults >= old(card.faults) && old(card.trace) <= card.trace
      ensures Steady(card.trace, |old(card.trace)|, key, DurableOf(old(card.files), key))
      ensures DurableOf(card.files, key) == DurableOf(old(card.files), key)
      ensures ok && Named(Deletions(card.files, key)) ==>
        if id == [] then Reports(offset) == []
        else offset < next <= |Deletions(card.files, key)| && next % ID_SIZE == 0
             && Reports(offset) == [id] + Reports(next)
      ensures !ok ==> card.faults > old(card.faults)
                      || offset % ID_SIZE != 0 || offset > |Deletions(card.files, key)|
    {
      next, id := offset, [];
      if Sidecar(key, Deleted) !in card.files { return true, next, id; }
      ok := card.Try();
      if !ok { return; }
      ok := TruncateDeletionTail();
      if !ok { return; }
      WholeIsWhole(old(card.files)[Sidecar(key, Deleted)]);
      ok := card.Try();
      if !ok { return; }
      if offset % ID_SIZE != 0 || offset > |card.files[Sidecar(key, Deleted)]| { return false, next, id; }
      ok, next, id := ScanDeletions(offset);
    }

    /** Reports every deletion in turn, as a sync does. */
    method ReportDeletions() returns (ok: bool, ids: seq<Data>)
      requires card.Valid() && size <= |slots| && Named(Deletions(card.files, key))
      modifies card
      ensures card.Valid()
      ensures DurableOf(card.files, key) == DurableOf(old(card.files), key)
      ensures card.faults >= old(card.faults) && (!ok ==> card.faults > old(card.faults))
      ensures ok ==> ids == Pending(Deletions(card.files, key), Live())
    {
      var offset, id := 0, [];
      ids := [];
      assert Deletions(card.files, key)[0..] == Deletions(card.files, key);
      while true
        invariant card.Valid() && DurableOf(card.files, key) == DurableOf(old(card.files), key)
        invariant 0 <= offset <= |Deletions(card.files, key)| && offset % ID_SIZE == 0
        invariant card.faults >= old(card.faults)
        invariant old(Reports(0)) == ids + Reports(offset)
        decreases |Deletions(card.files, key)| - offset
      {
        ok, offset, id := NextDeletion(offset);
        if !ok { return; }
        if id == [] { break; }
        ids := ids + [id];
      }
    }

    /** Forgets the deletions the server has taken. */
    method FinishDeletions() returns (ok: bool)
      requires card.Valid()
      modifies card
      ensures card.Valid() && old(card.trace) <= card.trace
      ensures Leaves(card.trace, |old(card.trace)|, key, DurableOf(old(card.files), key), Finish, ok)
      ensures ok ==> Deletions(card.files, key) == [] && OnlyAt(card.files, old(card.files), Sidecar(key, Deleted))
      ensures !ok ==> card.files == old(card.files) && card.faults > old(card.faults)
    {
      if Sidecar(key, Deleted) !in card.files { return true; }
      ok := card.Remove(Sidecar(key, Deleted));
    }

    // --- Reading and syncing ---

    /** Reads the text of a clipping from the store file. */
    method ReadClippingText(index: nat) returns (r: Option<Data>)
      requires Valid()
      modifies card`faults
      ensures Valid() && card.faults >= old(card.faults)
      ensures r.Some? ==> index < size && r.value == texts[index]
      ensures r.None? && index < size && MainFile().Some? ==> card.faults > old(card.faults)
    {
      if index >= size { return None; }
      var c := slots[index];
      assert Indexed(Recovered(card.files, key), List()[index], texts[index]);
      if c.textLength == 0 { return Some([]); }
      if Sidecar(key, Main) !in card.files { return None; }
      var ok := card.Try();
      if !ok { return None; }
      r := card.Read(Sidecar(key, Main), c.textOffset, c.textLength);
    }

    method RandomId() returns (id: Data)
      ensures IsRandomId(id)
    {
      id := Zeros(ID_SIZE);
      var i := 0;
      while i < 16
        invariant 0 <= i <= 16 && |id| == ID_SIZE
        invariant forall j :: 0 <= j < 2 * i ==> id[j] in HEX_DIGITS
        invariant forall j :: 2 * i <= j < ID_SIZE ==> id[j] == 0
      {
        var random: int := *;
        var b := random % 256;
        id := id[2 * i := HEX_DIGITS[b / 16]][2 * i + 1 := HEX_DIGITS[b % 16]];
        i := i + 1;
      }
    }

    /** Gives an id to every clipping that has none. */
    method AssignIds()
      requires Valid()
      modifies this`slots, this`dirty
      ensures Valid() && (old(dirty) ==> dirty)
      ensures PreparedAll(old(List()), List())
    {
      ghost var was := List();
      var index := 0;
      while index < size
        invariant 0 <= index <= size <= |slots|
        invariant forall i :: 0 <= i < index ==> Prepared(was[i], slots[i]) && SameButSync(was[i], slots[i])
        invariant forall i :: 0 <= i < index ==> slots[i].id[ID_SIZE - 1] == 0
        invariant forall i :: index <= i < size ==> slots[i] == was[i]
        invariant (old(dirty) ==> dirty) && (!dirty ==> List() == was)
      {
        assert Indexed(Recovered(card.files, key), was[index], texts[index]);
        if slots[index].id[0] == 0 {
          var id := RandomId();
          slots := slots[index := slots[index].(id := id)];
          dirty := true;
        }
        index := index + 1;
      }
      SyncMarksKeepIndexAll(Recovered(card.files, key), was, List(), texts);
    }

    method PrepareSync() returns (ok: bool)
      requires Valid()
      modifies card, this`slots, this`dirty
      ensures Valid() && card.faults >= old(card.faults)
      ensures old(card.trace) <= card.trace
      ensures SavesOrNot(old(card.files), old(card.trace), header, List(), texts, ok)
              || (ok && !old(dirty) && SavesOrNot(old(card.files), old(card.trace), header, List(), texts, false))
      ensures PreparedAll(old(List()), List()) && texts == old(texts)
      ensures ok ==> loaded && !dirty
      ensures !ok ==> !CanWrite(None) || card.faults > old(card.faults)
    {
      AssignIds();
      ghost var marked := List();
      ok := SaveToFile();
      PreparedThenSame(old(List()), marked, List());
      EncodesSame(header, List(), marked, texts);
    }

    /** Saves what waits to be saved. */
    method SaveIfDirty()
      requires Valid()
      modifies card, this`slots, this`dirty
      ensures card.Valid() && card.faults >= old(card.faults) && old(card.trace) <= card.trace
      ensures SavesOrNot(old(card.files), old(card.trace), header, old(List()), texts, true)
              || SavesOrNot(old(card.files), old(card.trace), header, old(List()), texts, false)
      ensures card.faults == old(card.faults) && loaded && old(CanWrite(None)) ==>
        Holds(Recovered(card.files, key), limit, old(List()), texts)
    {
      var saved := !dirty;
      if dirty {
        saved := SaveToFile();
      }
      if saved && loaded {
        HoldsSame(Recovered(card.files, key), limit, List(), old(List()), texts);
      }
    }

    /** Closes the book, saving what waits to be saved. */
    method Unload()
      requires Valid()
      modifies this, card
      ensures Valid() && !loaded && !dirty && List() == [] && card.faults >= old(card.faults)
      ensures header == Header([], [], [])
      ensures old(card.trace) <= card.trace && key == old(key)
      ensures SavesOrNot(old(card.files), old(card.trace), old(header), old(List()), old(texts), true)
              || SavesOrNot(old(card.files), old(card.trace), old(header), old(List()), old(texts), false)
      ensures card.faults == old(card.faults) && old(loaded) && old(CanWrite(None)) ==>
        Holds(Recovered(card.files, key), limit, old(List()), old(texts))
    {
      SaveIfDirty();
      size, slots, loaded, dirty, texts := 0, [], false, false, [];
      header := Header([], [], []);
    }
  }

  lemma {:induction false} ShiftedOn<T>(was: seq<T>, index: nat, i: nat)
    requires index <= i && i + 1 < |was|
    ensures (was[..index] + was[index + 1..i + 1] + was[i..])[i := was[i + 1]]
         == was[..index] + was[index + 1..i + 2] + was[i + 1..]
    ensures (was[..index] + was[index + 1..i + 1] + was[i..])[i + 1] == was[i + 1]
  {
  }

  /** An append of a record shows as nothing until its last byte is written. */
  lemma {:induction false} AppendedQueues(fs: Files, trace: seq<Files>, was: Files, before: seq<Files>, key: nat,
                                          record: Data, ok: bool)
    requires Sidecar(key, Deleted) in was && |record| == ID_SIZE && |was[Sidecar(key, Deleted)]| % ID_SIZE == 0
    requires exists n :: 0 <= n <= |record| && Appended(was, before, fs, trace, Sidecar(key, Deleted), record, n)
                         && (ok <==> n == |record|)
    ensures var view := DurableOf(was, key);
            Atomic(trace, |before|, key, view, view.(deletions := view.deletions + record), ok)
  {
    var n :| 0 <= n <= |record| && Appended(was, before, fs, trace, Sidecar(key, Deleted), record, n)
             && (ok <==> n == |record|);
    var view, journal := DurableOf(was, key), was[Sidecar(key, Deleted)];
    forall k | |before| <= k < |trace|
      ensures DurableOf(trace[k], key)
           == if k - |before| + 1 == ID_SIZE then view.(deletions := view.deletions + record) else view
    {
      var written := record[..k - |before| + 1];
      WholeAppend(journal, written);
      assert record[..ID_SIZE] == record;
    }
    if ok {
      assert SwitchesAt(trace, |before|, |trace| - 1, key, view, view.(deletions := view.deletions + record));
    }
  }

  lemma {:induction false} AppendedLength(fs: Files, trace: seq<Files>, was: Files, before: seq<Files>, key: nat,
                                          record: Data)
    requires Sidecar(key, Deleted) in was
    requires exists n :: 0 <= n <= |record| && Appended(was, before, fs, trace, Sidecar(key, Deleted), record, n)
    ensures Sidecar(key, Deleted) in fs && was[Sidecar(key, Deleted)] <= fs[Sidecar(key, Deleted)]
  {
  }

  datatype AddResult = Added | LimitReached | SaveFailed
}
