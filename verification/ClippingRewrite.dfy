/** What a rewrite of the clipping file must be given, and what it has written so far. */
module ClippingRewrite {
  import opened Bytes
  import opened Card
  import opened ClippingCodec
  import opened ClippingFiles

  const BLOCK := 16
  const COPY_BUFFER := 128

  /** `source` has the text of `c`. */
  ghost predicate Indexed(source: Option<Data>, c: Clipping, text: Data) {
    && Storable(c) && |text| == c.textLength
    && (text != [] ==> source.Some? && TextAt(source.value, c, text))
  }

  /** Every clipping points at its own text in `source`. */
  ghost predicate IndexedAll(source: Option<Data>, cs: seq<Clipping>, texts: seq<Data>) {
    && |texts| == |cs|
    && forall i :: 0 <= i < |cs| ==> Indexed(source, cs[i], texts[i])
  }

  ghost predicate SourcedAt(source: Option<Data>, c: Clipping, text: Data, replacement: Option<Data>) {
    match replacement
    case Some(t) => t == text && Storable(c) && |text| == c.textLength
    case None => Indexed(source, c, text)
  }

  function ReplacementFor(replacement: Option<Data>, index: nat, i: nat): Option<Data> {
    if i == index then replacement else None
  }

  /** Every clipping's text is at hand: as the replacement, or in `source`. */
  ghost predicate Sourced(source: Option<Data>, cs: seq<Clipping>, texts: seq<Data>, replacement: Option<Data>,
                          index: nat) {
    && |texts| == |cs|
    && forall i :: 0 <= i < |cs| ==> SourcedAt(source, cs[i], texts[i], ReplacementFor(replacement, index, i))
  }

  lemma {:induction false} SourcedIsWritable(source: Option<Data>, cs: seq<Clipping>, texts: seq<Data>,
                                             replacement: Option<Data>, index: nat)
    requires Sourced(source, cs, texts, replacement, index)
    ensures Writable(cs, texts, VERSION)
  {
    forall i | 0 <= i < |cs| ensures Storable(cs[i]) && TextFits(texts[i], VERSION) {
      assert SourcedAt(source, cs[i], texts[i], ReplacementFor(replacement, index, i));
    }
  }

  /** `now` is `was` followed by `done` bytes of `source`. */
  ghost predicate Copied(now: Data, was: Data, source: Data, position: nat, done: nat) {
    if done == 0 then now == was
    else position + done <= |source| && now == was + source[position..position + done]
  }

  lemma {:induction false} CopiedMore(now: Data, was: Data, source: Data, position: nat, done: nat, chunk: nat)
    requires Copied(now, was, source, position, done) && position + done + chunk <= |source|
    ensures Copied(now + source[position + done..position + done + chunk], was, source, position, done + chunk)
  {
    var mid, end := position + done, position + done + chunk;
    assert source[position..mid] + source[mid..end] == source[position..end];
  }

  ghost predicate HoldsFile(file: Data, limit: nat, cs: seq<Clipping>, texts: seq<Data>) {
    var parsed := ParseStore(file, limit);
    && parsed.Some?
    && SameClippings(parsed.value.clippings, cs)
    && TextsAt(file, parsed.value.clippings, texts)
  }

  lemma {:induction false} TextsUncut(cs: seq<Clipping>, texts: seq<Data>)
    requires Writable(cs, texts, VERSION)
    ensures CutAll(texts) == texts
  {
    assert forall i :: 0 <= i < |texts| ==> TextFits(texts[i], VERSION);
  }

  lemma {:induction false} SteadyThenSteady(mid: seq<Files>, trace: seq<Files>, from: nat, key: nat, view: Durable)
    requires mid <= trace && from <= |mid| && Steady(mid, from, key, view) && Steady(trace, |mid|, key, view)
    ensures Steady(trace, from, key, view)
  {
    assert forall k :: from <= k < |mid| ==> mid[k] == trace[k];
  }

  lemma {:induction false} WrittenAll(tmp: Data, h: Header, cs: seq<Clipping>, texts: seq<Data>, offsets: seq<nat>)
    requires |cs| == |texts| && Written(tmp, h, cs, texts, offsets, |cs|)
    ensures tmp == EncodeStore(h, cs, texts, VERSION)
    ensures |offsets| == |cs| && forall i :: 0 <= i < |cs| ==> OffsetAt(tmp, offsets[i], texts[i])
  {
    assert cs[..|cs|] == cs && texts[..|cs|] == texts;
  }

  /** `tmp` holds the head and the first `n` records, whose texts start at `offsets`. */
  ghost predicate Written(tmp: Data, h: Header, cs: seq<Clipping>, texts: seq<Data>, offsets: seq<nat>, n: nat)
    requires n <= |cs| == |texts|
  {
    && |offsets| == n
    && tmp == EncodeHead(h, |cs|, VERSION) + EncodeRecords(cs[..n], texts[..n], VERSION)
    && forall j :: 0 <= j < n ==> OffsetAt(tmp, offsets[j], texts[j])
  }

  ghost predicate OffsetAt(tmp: Data, offset: nat, text: Data) {
    offset + |text| <= |tmp| && tmp[offset..offset + |text|] == text
  }

  lemma {:induction false} WrittenNothing(h: Header, cs: seq<Clipping>, texts: seq<Data>)
    requires |cs| == |texts|
    ensures Written(EncodeHead(h, |cs|, VERSION), h, cs, texts, [], 0)
  {
    assert cs[..0] == [] && texts[..0] == [];
    assert RecordParts([], [], VERSION) == [];
    assert EncodeHead(h, |cs|, VERSION) + [] == EncodeHead(h, |cs|, VERSION);
  }

  lemma {:induction false} RecordOffset(before: Data, c: Clipping, text: Data)
    ensures OffsetAt(before + EncodeRecord(c, text, VERSION), |before| + MetaSize(VERSION) + 2, text)
  {
    var head := before + (EncodeMeta(c, VERSION) + Le(|text|, 2));
    assert before + EncodeRecord(c, text, VERSION) == head + text + [];
    Slices(head, text, []);
  }

  lemma {:induction false} WrittenMore(tmp: Data, h: Header, cs: seq<Clipping>, texts: seq<Data>, offsets: seq<nat>,
                                       n: nat, offset: nat)
    requires n < |cs| == |texts| && Written(tmp, h, cs, texts, offsets, n)
    requires offset == |tmp| + MetaSize(VERSION) + 2
    ensures Written(tmp + EncodeRecord(cs[n], texts[n], VERSION), h, cs, texts, offsets + [offset], n + 1)
  {
    var record := EncodeRecord(cs[n], texts[n], VERSION);
    EncodeRecordsAppend(cs, texts, n);
    Regroup3(EncodeHead(h, |cs|, VERSION), EncodeRecords(cs[..n], texts[..n], VERSION), record);
    RecordOffset(tmp, cs[n], texts[n]);
    forall j | 0 <= j < n ensures OffsetAt(tmp + record, offsets[j], texts[j]) {
      OffsetKept(tmp, record, offsets[j], texts[j]);
    }
  }

  lemma {:induction false} OffsetKept(tmp: Data, more: Data, offset: nat, text: Data)
    requires OffsetAt(tmp, offset, text)
    ensures OffsetAt(tmp + more, offset, text)
  {
    assert (tmp + more)[offset..offset + |text|] == tmp[offset..offset + |text|];
  }

  lemma {:induction false} Regroup3(a: Data, b: Data, c: Data)
    ensures a + b + c == a + (b + c)
  {
  }

  lemma {:induction false} ThreePieces(a: Data, b: Data, c: Data, d: Data)
    ensures a + b + c + d == a + (b + c + d)
  {
  }

  /** The file is the list: the same records, each with its own text. */
  ghost predicate Holds(contents: Option<Data>, limit: nat, cs: seq<Clipping>, texts: seq<Data>) {
    match contents
    case None => cs == []
    case Some(file) => HoldsFile(file, limit, cs, texts)
  }

  lemma {:induction false} HoldsSame(contents: Option<Data>, limit: nat, now: seq<Clipping>, was: seq<Clipping>,
                                     texts: seq<Data>)
    requires SameClippings(now, was) && Holds(contents, limit, now, texts)
    ensures Holds(contents, limit, was, texts)
  {
    if contents.Some? {
      var read := ParseStore(contents.value, limit).value.clippings;
      assert forall i :: 0 <= i < |was| ==> SameClipping(read[i], now[i]) && SameClipping(now[i], was[i]);
    }
  }

  /** The file does not say where in itself a text lies. */
  lemma {:induction false} EncodesSame(h: Header, now: seq<Clipping>, was: seq<Clipping>, texts: seq<Data>)
    requires SameClippings(now, was) && |texts| == |was|
    ensures EncodeStore(h, now, texts, VERSION) == EncodeStore(h, was, texts, VERSION)
  {
    forall i | 0 <= i < |was| ensures EncodeMeta(now[i], VERSION) == EncodeMeta(was[i], VERSION) {
      assert SameClipping(now[i], was[i]) && Numbers(now[i]) == Numbers(was[i]);
    }
    assert RecordParts(now, texts, VERSION) == RecordParts(was, texts, VERSION);
  }

  /** `moved` is `cs` pointing at the new offsets, which the source casts to 32 bits. */
  ghost predicate Moved(moved: seq<Clipping>, cs: seq<Clipping>, offsets: seq<nat>) {
    && |moved| == |cs| == |offsets|
    && forall i :: 0 <= i < |cs| ==> moved[i] == cs[i].(textOffset := offsets[i] % 0x1_0000_0000)
  }

  lemma {:induction false} MovedSame(moved: seq<Clipping>, cs: seq<Clipping>, offsets: seq<nat>)
    requires Moved(moved, cs, offsets)
    ensures SameClippings(moved, cs)
  {
  }

  lemma {:induction false} MovedOne(file: Data, c: Clipping, text: Data, offset: nat, moved: Clipping)
    requires |file| < 0x1_0000_0000 && OffsetAt(file, offset, text)
    requires Storable(c) && |text| == c.textLength && moved == c.(textOffset := offset % 0x1_0000_0000)
    ensures Indexed(Some(file), moved, text)
  {
    assert Numbers(moved) == Numbers(c);
  }

  /** After the offsets moved, each record points at its text in the new file. */
  lemma {:induction false} MovedIndexed(h: Header, cs: seq<Clipping>, texts: seq<Data>, offsets: seq<nat>,
                                        moved: seq<Clipping>)
    requires HeaderFits(h) && |cs| <= 0xFFFF && Writable(cs, texts, VERSION)
    requires forall i :: 0 <= i < |cs| ==> |texts[i]| == cs[i].textLength
    requires Written(EncodeStore(h, cs, texts, VERSION), h, cs, texts, offsets, |cs|) && Moved(moved, cs, offsets)
    ensures IndexedAll(Some(EncodeStore(h, cs, texts, VERSION)), moved, texts)
  {
    var file := EncodeStore(h, cs, texts, VERSION);
    StoreFitsOffsets(h, cs, texts);
    forall i | 0 <= i < |cs| ensures Indexed(Some(file), moved[i], texts[i]) {
      assert OffsetAt(file, offsets[i], texts[i]);
      MovedOne(file, cs[i], texts[i], offsets[i], moved[i]);
    }
  }

  lemma {:induction false} SameTrans(xs: seq<Clipping>, ys: seq<Clipping>, zs: seq<Clipping>)
    requires SameClippings(xs, ys) && SameClippings(zs, ys)
    ensures SameClippings(xs, zs)
  {
    assert forall i :: 0 <= i < |xs| ==> SameClipping(xs[i], ys[i]) && SameClipping(zs[i], ys[i]);
  }

  /** The next load of a rewritten store finds the list. */
  lemma {:induction false} RewrittenHolds(h: Header, cs: seq<Clipping>, texts: seq<Data>, limit: nat,
                                          list: seq<Clipping>)
    requires HeaderFits(h) && |cs| <= limit <= 0xFFFF && Writable(cs, texts, VERSION) && SameClippings(list, cs)
    ensures HoldsFile(EncodeStore(h, cs, texts, VERSION), limit, list, texts)
  {
    var read := StoreRoundTrip(h, cs, texts, limit, VERSION);
    RememberedWhole(read, cs);
    TextsUncut(cs, texts);
    SameTrans(read, cs, list);
  }

  // --- What the calls do to the list ---

  /** The arguments of a new clipping; the title is already cut to its field. */
  datatype Selection = Selection(
    spineIndex: nat, startPage: nat, endPage: nat, pageCount: nat, startWordIndex: nat, endWordIndex: nat,
    wordCount: nat, chapterTitle: TitleField, paragraphIndex: nat, layoutSignature: nat, startOffset: nat,
    endOffset: nat)

  function NewClipping(s: Selection, timestamp: nat, length: nat): Clipping {
    EMPTY_CLIPPING.(
      spineIndex := s.spineIndex, startPage := s.startPage, endPage := s.endPage,
      pageCount := if s.pageCount > 1 then s.pageCount else 1,
      startWordIndex := s.startWordIndex, endWordIndex := s.endWordIndex, wordCount := s.wordCount,
      paragraphIndex := s.paragraphIndex, timestamp := timestamp, layoutSignature := s.layoutSignature,
      startOffset := s.startOffset, endOffset := s.endOffset, chapterTitle := s.chapterTitle, textLength := length)
  }

  /** The time a clipping was made; a clock that was never set counts as none. */
  function Stamp(now: int): (timestamp: nat)
    ensures timestamp < 0x1_0000_0000
  {
    if now > 1577836800 then now % 0x1_0000_0000 else 0
  }

  /** The source's integer widths. */
  ghost predicate InWidths(s: Selection) {
    && s.spineIndex <= 0xFFFF && s.startPage <= 0xFFFF && s.endPage <= 0xFFFF && s.pageCount <= 0xFFFF
    && s.startWordIndex <= 0xFFFF && s.endWordIndex <= 0xFFFF && s.wordCount <= 0xFFFF && s.paragraphIndex <= 0xFFFF
    && s.layoutSignature <= 0xFFFF_FFFF && s.startOffset <= 0xFFFF_FFFF && s.endOffset <= 0xFFFF_FFFF
    && s.chapterTitle[TITLE_SIZE - 1] == 0
  }

  lemma {:induction false} NewClippingFits(s: Selection, now: int, length: nat)
    requires InWidths(s) && length <= TEXT_MAX
    ensures Storable(NewClipping(s, Stamp(now), length))
  {
    assert Capacity(2) == 0x1_0000 && Capacity(4) == 0x1_0000_0000 && Capacity(8) > 0 && Capacity(1) == 256;
  }

  /** A clipping just made, field by field: it has no id yet and waits for its upload. */
  ghost predicate MadeOf(c: Clipping, s: Selection, now: int) {
    && c.spineIndex == s.spineIndex && c.startPage == s.startPage && c.endPage == s.endPage
    && c.pageCount == (if s.pageCount == 0 then 1 else s.pageCount)
    && c.startWordIndex == s.startWordIndex && c.endWordIndex == s.endWordIndex && c.wordCount == s.wordCount
    && c.paragraphIndex == s.paragraphIndex && c.layoutSignature == s.layoutSignature
    && c.startOffset == s.startOffset && c.endOffset == s.endOffset && c.chapterTitle == s.chapterTitle
    && c.timestamp == (if now > 1577836800 then now % 0x1_0000_0000 else 0)
    && c.syncRevision == 0 && c.pendingUpload && forall k :: 0 <= k < 65 ==> c.id[k] == 0
  }

  /** The list is as it was, with one clipping behind. */
  ghost predicate OneMore(was: seq<Clipping>, list: seq<Clipping>, s: Selection, now: int) {
    |list| == |was| + 1 && SameClippings(list[..|was|], was) && MadeOf(list[|was|], s, now)
  }

  lemma {:induction false} NewIsMade(was: seq<Clipping>, s: Selection, now: int, length: nat, list: seq<Clipping>)
    requires SameClippings(list, was + [NewClipping(s, Stamp(now), length)])
    ensures OneMore(was, list, s, now)
  {
    assert SameClipping(list[|was|], NewClipping(s, Stamp(now), length));
    SameFields(list[|was|], NewClipping(s, Stamp(now), length));
  }

  lemma {:induction false} SourcedAppend(source: Option<Data>, cs: seq<Clipping>, texts: seq<Data>, c: Clipping,
                                         text: Data)
    requires IndexedAll(source, cs, texts) && Storable(c) && |text| == c.textLength
    ensures Sourced(source, cs + [c], texts + [text], Some(text), |cs|)
  {
  }

  lemma {:induction false} SourcedReplace(source: Option<Data>, cs: seq<Clipping>, texts: seq<Data>, i: nat,
                                          c: Clipping, text: Data)
    requires IndexedAll(source, cs, texts) && Storable(c) && |text| == c.textLength && i < |cs|
    ensures Sourced(source, cs[i := c], texts[i := text], Some(text), i)
  {
  }

  lemma {:induction false} SourcedWithout(source: Option<Data>, cs: seq<Clipping>, texts: seq<Data>, i: nat)
    requires IndexedAll(source, cs, texts) && i < |cs|
    ensures Sourced(source, Without(cs, i), Without(texts, i), None, 0)
    ensures Sourced(source, Without(cs, i), Without(texts, i), None, i)
  {
  }

  lemma {:induction false} SourcedAsIs(source: Option<Data>, cs: seq<Clipping>, texts: seq<Data>)
    requires IndexedAll(source, cs, texts)
    ensures Sourced(source, cs, texts, None, 0)
  {
  }

  /** The ids two char arrays spell are the same. */
  predicate SameId(a: Clipping, b: Clipping) {
    CString(a.id) == CString(b.id)
  }

  /** First clipping with the id of `c`, or the length of the list. */
  function FirstWithId(cs: seq<Clipping>, c: Clipping): (i: nat)
    ensures i <= |cs| && (i < |cs| ==> SameId(cs[i], c))
    ensures forall j :: 0 <= j < i ==> !SameId(cs[j], c)
  {
    if cs == [] || SameId(cs[0], c) then 0 else 1 + FirstWithId(cs[1..], c)
  }

  predicate UpToDate(mine: Clipping, remote: Clipping) {
    mine.syncRevision == remote.syncRevision && !mine.pendingUpload
  }

  /** Whether the server's change asks for nothing. */
  predicate Moot(cs: seq<Clipping>, c: Clipping, deleted: bool) {
    var i := FirstWithId(cs, c);
    if i == |cs| then deleted else !deleted && UpToDate(cs[i], c)
  }

  /** The list after a change from the server. */
  function Applied(cs: seq<Clipping>, c: Clipping, deleted: bool): seq<Clipping> {
    var i := FirstWithId(cs, c);
    if i == |cs| then (if deleted then cs else cs + [c])
    else if deleted then Without(cs, i)
    else if UpToDate(cs[i], c) then cs
    else cs[i := c]
  }

  function AppliedTexts(cs: seq<Clipping>, texts: seq<Data>, c: Clipping, text: Data, deleted: bool): (after: seq<Data>)
    requires |texts| == |cs|
    ensures |after| == |Applied(cs, c, deleted)|
  {
    var i := FirstWithId(cs, c);
    if i == |cs| then (if deleted then texts else texts + [text])
    else if deleted then Without(texts, i)
    else if UpToDate(cs[i], c) then texts
    else texts[i := text]
  }

  /** No clipping has the id that `id` spells. */
  ghost predicate NoneHas(cs: seq<Clipping>, id: Data) {
    forall j :: 0 <= j < |cs| ==> CString(cs[j].id) != CString(id)
  }

  /** Clipping `i` is the first that has the id. */
  ghost predicate FirstHas(cs: seq<Clipping>, id: Data, i: nat) {
    i < |cs| && CString(cs[i].id) == CString(id) && NoneHas(cs[..i], id)
  }

  lemma {:induction false} AppliedNone(cs: seq<Clipping>, texts: seq<Data>, c: Clipping, text: Data, deleted: bool)
    requires |texts| == |cs| && NoneHas(cs, c.id)
    ensures Applied(cs, c, deleted) == if deleted then cs else cs + [c]
    ensures AppliedTexts(cs, texts, c, text, deleted) == if deleted then texts else texts + [text]
    ensures Moot(cs, c, deleted) <==> deleted
  {
    assert forall j :: 0 <= j < |cs| ==> !SameId(cs[j], c);
  }

  /** A deletion takes out the first clipping with the id, and a replacement changes that one alone, unless it is of
      the same revision and waits for no upload. */
  lemma {:induction false} AppliedFirst(cs: seq<Clipping>, texts: seq<Data>, c: Clipping, text: Data, deleted: bool,
                                        i: nat)
    requires |texts| == |cs| && FirstHas(cs, c.id, i)
    ensures var same := cs[i].syncRevision == c.syncRevision && !cs[i].pendingUpload;
            && Applied(cs, c, deleted) == (if deleted then cs[..i] + cs[i + 1..] else if same then cs else cs[i := c])
            && AppliedTexts(cs, texts, c, text, deleted)
               == (if deleted then texts[..i] + texts[i + 1..] else if same then texts else texts[i := text])
            && (Moot(cs, c, deleted) <==> !deleted && same)
  {
    forall j | 0 <= j < i ensures !SameId(cs[j], c) {
      assert cs[..i][j] == cs[j];
    }
    assert SameId(cs[i], c);
    assert FirstWithId(cs, c) == i;
  }

  ghost function Other(c: Clipping, text: Data, id: Data): seq<(Clipping, Data)> {
    if CString(c.id) == CString(id) then [] else [(c.(textOffset := 0, textLength := 0), text)]
  }

  /** The clippings with other ids, with their texts, in order. */
  ghost function Others(cs: seq<Clipping>, texts: seq<Data>, id: Data): seq<(Clipping, Data)>
    requires |texts| == |cs|
  {
    if cs == [] then [] else Other(cs[0], texts[0], id) + Others(cs[1..], texts[1..], id)
  }

  lemma {:induction false} OthersJoin(cs: seq<Clipping>, texts: seq<Data>, id: Data, i: nat)
    requires |texts| == |cs| && i <= |cs|
    ensures Others(cs, texts, id) == Others(cs[..i], texts[..i], id) + Others(cs[i..], texts[i..], id)
  {
    if i > 0 {
      var cs1, texts1, first := cs[1..], texts[1..], Other(cs[0], texts[0], id);
      OthersJoin(cs1, texts1, id, i - 1);
      assert cs1[i - 1..] == cs[i..] && texts1[i - 1..] == texts[i..];
      assert Others(cs[..i], texts[..i], id) == first + Others(cs1[..i - 1], texts1[..i - 1], id) by {
        assert cs[..i][1..] == cs1[..i - 1] && texts[..i][1..] == texts1[..i - 1];
      }
    } else {
      assert cs[0..] == cs && texts[0..] == texts;
    }
  }

  /** One clipping with the id, in between. */
  lemma {:induction false} OthersAround(cs: seq<Clipping>, texts: seq<Data>, id: Data, i: nat)
    requires |texts| == |cs| && i < |cs| && CString(cs[i].id) == CString(id)
    ensures Others(cs, texts, id) == Others(cs[..i], texts[..i], id) + Others(cs[i + 1..], texts[i + 1..], id)
  {
    OthersJoin(cs, texts, id, i);
    assert cs[i..][1..] == cs[i + 1..] && texts[i..][1..] == texts[i + 1..];
  }

  /** Every clipping with another id stays in the list, with its text, in order. */
  lemma {:induction false} OthersStay(cs: seq<Clipping>, texts: seq<Data>, c: Clipping, text: Data, deleted: bool)
    requires |texts| == |cs|
    ensures Others(Applied(cs, c, deleted), AppliedTexts(cs, texts, c, text, deleted), c.id) == Others(cs, texts, c.id)
  {
    var i := FirstWithId(cs, c);
    if i == |cs| {
      OthersAdded(cs, texts, c, text);
    } else if deleted {
      OthersWithout(cs, texts, c.id, i);
    } else {
      OthersReplaced(cs, texts, c, text, i);
    }
  }

  lemma {:induction false} OthersAdded(cs: seq<Clipping>, texts: seq<Data>, c: Clipping, text: Data)
    requires |texts| == |cs|
    ensures Others(cs + [c], texts + [text], c.id) == Others(cs, texts, c.id)
  {
    var now, after := cs + [c], texts + [text];
    OthersAround(now, after, c.id, |cs|);
    assert now[..|cs|] == cs && after[..|cs|] == texts && now[|cs| + 1..] == [] && after[|cs| + 1..] == [];
  }

  lemma {:induction false} OthersWithout(cs: seq<Clipping>, texts: seq<Data>, id: Data, i: nat)
    requires |texts| == |cs| && i < |cs| && CString(cs[i].id) == CString(id)
    ensures Others(Without(cs, i), Without(texts, i), id) == Others(cs, texts, id)
  {
    var now, after := Without(cs, i), Without(texts, i);
    OthersAround(cs, texts, id, i);
    OthersJoin(now, after, id, i);
    assert now[..i] == cs[..i] && after[..i] == texts[..i];
    assert now[i..] == cs[i + 1..] && after[i..] == texts[i + 1..];
  }

  lemma {:induction false} OthersReplaced(cs: seq<Clipping>, texts: seq<Data>, c: Clipping, text: Data, i: nat)
    requires |texts| == |cs| && i < |cs| && CString(cs[i].id) == CString(c.id)
    ensures Others(cs[i := c], texts[i := text], c.id) == Others(cs, texts, c.id)
  {
    var now, after := cs[i := c], texts[i := text];
    OthersAround(cs, texts, c.id, i);
    OthersAround(now, after, c.id, i);
    assert now[..i] == cs[..i] && after[..i] == texts[..i];
    assert now[i + 1..] == cs[i + 1..] && after[i + 1..] == texts[i + 1..];
  }

  lemma {:induction false} OthersSame(cs: seq<Clipping>, ds: seq<Clipping>, texts: seq<Data>, id: Data)
    requires |texts| == |cs| && SameClippings(cs, ds)
    ensures Others(cs, texts, id) == Others(ds, texts, id)
  {
    if cs != [] {
      OthersSame(cs[1..], ds[1..], texts[1..], id);
      assert SameClipping(cs[0], ds[0]);
    }
  }

  /** What a change from the server makes of a list: others stay, and the first with the id is taken out or replaced,
      or one is added. */
  ghost predicate TakenOver(was: seq<Clipping>, were: seq<Data>, c: Clipping, text: Data, deleted: bool,
                            now: seq<Clipping>, texts: seq<Data>)
    requires |were| == |was|
  {
    && |texts| == |now| && Others(now, texts, c.id) == Others(was, were, c.id)
    && (NoneHas(was, c.id) ==>
          && SameClippings(now, if deleted then was else was + [c])
          && texts == if deleted then were else were + [text])
    && forall i: nat :: FirstHas(was, c.id, i) ==>
         var same := was[i].syncRevision == c.syncRevision && !was[i].pendingUpload;
         && SameClippings(now, if deleted then was[..i] + was[i + 1..] else if same then was else was[i := c])
         && texts == if deleted then were[..i] + were[i + 1..] else if same then were else were[i := text]
  }

  lemma {:induction false} AppliedTakesOver(was: seq<Clipping>, were: seq<Data>, c: Clipping, text: Data,
                                            deleted: bool, now: seq<Clipping>, texts: seq<Data>)
    requires |were| == |was| && SameClippings(now, Applied(was, c, deleted))
    requires texts == AppliedTexts(was, were, c, text, deleted)
    ensures TakenOver(was, were, c, text, deleted, now, texts)
  {
    OthersStay(was, were, c, text, deleted);
    OthersSame(now, Applied(was, c, deleted), texts, c.id);
    if NoneHas(was, c.id) {
      AppliedNone(was, were, c, text, deleted);
    }
    forall i: nat | FirstHas(was, c.id, i)
      ensures var same := was[i].syncRevision == c.syncRevision && !was[i].pendingUpload;
              && SameClippings(now, if deleted then was[..i] + was[i + 1..] else if same then was else was[i := c])
              && texts == if deleted then were[..i] + were[i + 1..] else if same then were else were[i := text]
    {
      AppliedFirst(was, were, c, text, deleted, i);
    }
  }

  // --- What a call leaves on the card ---

  /** Every state since `from` is one `call` may leave, and the contents are new only if it is done. */
  ghost predicate Leaves(trace: seq<Files>, from: nat, key: nat, before: Durable, call: Call, done: bool) {
    forall k :: from <= k < |trace| ==>
      && MayLeave(call, before, DurableOf(trace[k], key))
      && (!done ==> DurableOf(trace[k], key).contents == before.contents)
  }

  lemma {:induction false} RewriteLeaves(trace: seq<Files>, from: nat, key: nat, before: Durable, contents: Data,
                                         done: bool)
    requires Atomic(trace, from, key, before, before.(contents := Some(contents)), done)
    ensures Leaves(trace, from, key, before, Rewrite(contents), done)
    ensures done ==> trace != [] && DurableOf(trace[|trace| - 1], key) == After(Rewrite(contents), before)
  {
  }

  /** First the deletion is queued, then the store is rewritten. */
  lemma {:induction false} RemovalLeaves(mid: seq<Files>, trace: seq<Files>, from: nat, key: nat, before: Durable,
                                         record: Data, contents: Data, done: bool)
    requires from <= |mid| && mid <= trace
    requires var queued := before.(deletions := before.deletions + record);
             && Atomic(mid, from, key, before, queued, true)
             && Atomic(trace, |mid|, key, queued, queued.(contents := Some(contents)), done)
    ensures Leaves(trace, from, key, before, Removal(record, contents), done)
    ensures done ==> trace != [] && DurableOf(trace[|trace| - 1], key) == After(Removal(record, contents), before)
  {
    assert forall k :: from <= k < |mid| ==> mid[k] == trace[k];
  }

  /** A removal that could not be queued, and one of a clipping no server knows. */
  lemma {:induction false} UnqueuedLeaves(trace: seq<Files>, from: nat, key: nat, before: Durable, record: Data,
                                          contents: Data, done: bool)
    requires if done then record == [] && Switches(trace, from, key, before, before.(contents := Some(contents)))
             else Steady(trace, from, key, before)
    ensures Leaves(trace, from, key, before, Removal(record, contents), done)
    ensures done ==> trace != [] && DurableOf(trace[|trace| - 1], key) == After(Removal(record, contents), before)
  {
    assert record == [] ==> before.deletions + record == before.deletions;
  }

  // --- Loading ---

  /** What is read so far and what is left to read make the whole. */
  ghost predicate ReadSoFar(whole: Option<seq<Clipping>>, sofar: seq<Clipping>, rest: Option<seq<Clipping>>) {
    whole == match rest
             case None => None
             case Some(cs) => Some(sofar + cs)
  }

  /** The reader has `sofar` and stands at `position` with `count` records to go. */
  ghost predicate ReadAt(file: Data, position: nat, version: nat, count: nat, whole: Option<seq<Clipping>>,
                         sofar: seq<Clipping>) {
    position <= |file| && ReadSoFar(whole, sofar, ParseRecords(file[position..], position, version, count))
  }

  lemma {:induction false} ReadNothing(file: Data, position: nat, version: nat, count: nat)
    requires position <= |file|
    ensures ReadAt(file, position, version, count, ParseRecords(file[position..], position, version, count), [])
  {
    var whole := ParseRecords(file[position..], position, version, count);
    assert whole.Some? ==> [] + whole.value == whole.value;
  }

  lemma {:induction false} ReadAll(file: Data, position: nat, version: nat, whole: Option<seq<Clipping>>,
                                   sofar: seq<Clipping>)
    requires ReadAt(file, position, version, 0, whole, sofar)
    ensures whole == Some(sofar)
  {
    assert ParseRecords(file[position..], position, version, 0) == Some([]);
    assert sofar + [] == sofar;
  }

  lemma {:induction false} ReadOneMore(file: Data, position: nat, version: nat, count: nat,
                                       whole: Option<seq<Clipping>>, sofar: seq<Clipping>)
    requires LEGACY_VERSION <= version <= VERSION && position <= |file| && count > 0
    requires ReadSoFar(whole, sofar, ParseRecords(file[position..], position, version, count))
    ensures match ParseRecord(file[position..], position, version)
            case None => whole == None
            case Some(Parsed(c, used)) =>
              && position + used <= |file|
              && ReadSoFar(whole, sofar + [c], ParseRecords(file[position + used..], position + used, version,
                                                            count - 1))
  {
    ParseRecordsStep(file, position, version, count);
    match ParseRecord(file[position..], position, version)
    case None =>
    case Some(Parsed(c, used)) =>
      ReadSoFarStep(whole, sofar, c, ParseRecords(file[position + used..], position + used, version, count - 1));
  }

  /** The first of the records, then the rest. */
  lemma {:induction false} ParseRecordsStep(file: Data, position: nat, version: nat, count: nat)
    requires LEGACY_VERSION <= version <= VERSION && position <= |file| && count > 0
    ensures match ParseRecord(file[position..], position, version)
            case None => ParseRecords(file[position..], position, version, count) == None
            case Some(Parsed(c, used)) =>
              && position + used <= |file|
              && ParseRecords(file[position..], position, version, count)
                 == Prepended(c, ParseRecords(file[position + used..], position + used, version, count - 1))
  {
    ParsedRecordIsReadable(file[..position], file[position..], version);
    match ParseRecord(file[position..], position, version)
    case None =>
    case Some(Parsed(c, used)) =>
      assert file[position..][used..] == file[position + used..];
  }

  function Prepended(c: Clipping, rest: Option<seq<Clipping>>): Option<seq<Clipping>> {
    match rest
    case None => None
    case Some(items) => Some([c] + items)
  }

  lemma {:induction false} ReadSoFarStep(whole: Option<seq<Clipping>>, sofar: seq<Clipping>, c: Clipping,
                                         rest: Option<seq<Clipping>>)
    requires ReadSoFar(whole, sofar, Prepended(c, rest))
    ensures ReadSoFar(whole, sofar + [c], rest)
  {
    if rest.Some? {
      assert sofar + ([c] + rest.value) == sofar + [c] + rest.value;
    }
  }

  /** The list is exactly what the file holds. */
  ghost predicate LoadedFrom(contents: Option<Data>, limit: nat, cs: seq<Clipping>) {
    match contents
    case None => cs == []
    case Some(file) => ParseStore(file, limit).Some? && cs == ParseStore(file, limit).value.clippings
  }

  /** A title or an author that was not given is the stored one; the path is the given one always. */
  ghost predicate HeaderFrom(contents: Option<Data>, limit: nat, given: Header, header: Header) {
    && header.bookPath == given.bookPath
    && (given.title != [] ==> header.title == given.title)
    && (given.author != [] ==> header.author == given.author)
    && match contents
       case None => header == given
       case Some(file) =>
         && ParseStore(file, limit).Some?
         && var stored := ParseStore(file, limit).value.header;
            && (given.title == [] ==> header.title == stored.title)
            && (given.author == [] ==> header.author == stored.author)
  }

  ghost predicate Unreadable(contents: Option<Data>, limit: nat) {
    contents.Some? && ParseStore(contents.value, limit).None?
  }

  /** A file as it was loaded is indexed by its own records. */
  lemma {:induction false} LoadedIsIndexed(file: Data, limit: nat)
    requires ParseStore(file, limit).Some?
    ensures AllReadable(file, ParseStore(file, limit).value.clippings)
    ensures var cs := ParseStore(file, limit).value.clippings;
            && |cs| <= limit
            && IndexedAll(Some(file), cs, StoredTexts(file, cs))
            && Holds(Some(file), limit, cs, StoredTexts(file, cs))
  {
    ParsedStoreIsReadable(file, limit);
    var cs := ParseStore(file, limit).value.clippings;
    forall i | 0 <= i < |cs| ensures Indexed(Some(file), cs[i], StoredTexts(file, cs)[i]) {
      assert Readable(file, cs[i]) && TextAt(file, cs[i], StoredTexts(file, cs)[i]);
    }
  }

  // --- Interrupted removals ---

  function IdsOf(cs: seq<Clipping>): set<Data> {
    set i | 0 <= i < |cs| :: CString(cs[i].id)
  }

  /** The record a removal queues names a clipping. */
  lemma {:induction false} RecordNamed(id: Data)
    requires |id| == ID_SIZE
    ensures id[0] != 0 ==> IdOf(id) != []
  {
  }

  /** A removal cut short once its deletion was queued: the next load finds the old contents, and the id is reported
      exactly when no clipping in them has it. */
  lemma {:induction false} QueuedReport(before: Durable, record: Data, contents: Data, limit: nat,
                                        loaded: seq<Clipping>)
    requires |before.deletions| % ID_SIZE == 0 && |record| == ID_SIZE && LoadedFrom(before.contents, limit, loaded)
    ensures var now := Queued(Removal(record, contents), before);
            && LoadedFrom(now.contents, limit, loaded)
            && (IdOf(record) in Pending(now.deletions, IdsOf(loaded)) <==> IdOf(record) !in IdsOf(loaded))
  {
    IdsAppend(before.deletions, record);
    PendingIsExact(before.deletions + record, IdsOf(loaded), IdOf(record));
  }

  /** An id given for a sync whose save failed is on no clipping of the card: a removal cut short then is reported,
      although the clipping is back. */
  lemma {:induction false} UnsavedIdReported(before: Durable, record: Data, contents: Data, limit: nat,
                                             loaded: seq<Clipping>)
    requires |before.deletions| % ID_SIZE == 0 && |record| == ID_SIZE && record[0] != 0
    requires LoadedFrom(before.contents, limit, loaded) && forall i :: 0 <= i < |loaded| ==> loaded[i].id[0] == 0
    ensures IdOf(record) in Pending(Queued(Removal(record, contents), before).deletions, IdsOf(loaded))
  {
    QueuedReport(before, record, contents, limit, loaded);
    RecordNamed(record);
    forall i | 0 <= i < |loaded| ensures CString(loaded[i].id) == [] {
    }
  }

  /** So it is not reported if the list it was removed from had been saved. */
  lemma {:induction false} InterruptedNotReported(before: Durable, cs: seq<Clipping>, texts: seq<Data>, index: nat,
                                                  contents: Data, limit: nat, loaded: seq<Clipping>)
    requires |before.deletions| % ID_SIZE == 0 && index < |cs| && Storable(cs[index])
    requires Holds(before.contents, limit, cs, texts) && LoadedFrom(before.contents, limit, loaded)
    ensures IdOf(cs[index].id) !in Pending(Queued(Removal(cs[index].id, contents), before).deletions, IdsOf(loaded))
  {
    QueuedReport(before, cs[index].id, contents, limit, loaded);
    assert SameClipping(loaded[index], cs[index]);
    assert Terminated(cs[index].id) == cs[index].id;
    assert CString(loaded[index].id) in IdsOf(loaded);
  }

  // --- Sync marks ---

  /** Changing the marks of a sync leaves a clipping where and what it was. */
  predicate SameButSync(a: Clipping, b: Clipping) {
    a.(id := b.id, pendingUpload := b.pendingUpload) == b
  }

  lemma {:induction false} SyncMarksKeepIndex(source: Option<Data>, a: Clipping, b: Clipping, text: Data)
    requires Indexed(source, a, text) && SameButSync(a, b) && b.id[ID_SIZE - 1] == 0
    ensures Indexed(source, b, text)
  {
    assert forall i :: 0 <= i < 13 ==> Numbers(b)[i] == Numbers(a)[i];
  }

  const HEX_DIGITS: Data := [48, 49, 50, 51, 52, 53, 54, 55, 56, 57, 97, 98, 99, 100, 101, 102]

  /** 16 random bytes in hexadecimal. */
  ghost predicate IsRandomId(id: Data) {
    && |id| == ID_SIZE
    && (forall i :: 0 <= i < 32 ==> id[i] in HEX_DIGITS)
    && (forall i :: 32 <= i < ID_SIZE ==> id[i] == 0)
  }

  /** What PrepareSync does to a clipping: it gives it an id unless it has one. */
  ghost predicate Prepared(was: Clipping, now: Clipping) {
    && now.(id := was.id, textOffset := 0, textLength := 0) == was.(textOffset := 0, textLength := 0)
    && if was.id[0] != 0 then now.id == was.id else IsRandomId(now.id)
  }

  ghost predicate PreparedAll(was: seq<Clipping>, now: seq<Clipping>) {
    |was| == |now| && forall i :: 0 <= i < |was| ==> Prepared(was[i], now[i])
  }

  lemma {:induction false} PreparedThenSame(was: seq<Clipping>, marked: seq<Clipping>, now: seq<Clipping>)
    requires PreparedAll(was, marked) && SameClippings(now, marked)
    ensures PreparedAll(was, now)
  {
    forall i | 0 <= i < |was| ensures Prepared(was[i], now[i]) {
      assert Prepared(was[i], marked[i]) && SameClipping(now[i], marked[i]);
    }
  }

  lemma {:induction false} SyncMarksKeepIndexAll(source: Option<Data>, was: seq<Clipping>, now: seq<Clipping>,
                                                 texts: seq<Data>)
    requires IndexedAll(source, was, texts) && |now| == |was|
    requires forall i :: 0 <= i < |was| ==> SameButSync(was[i], now[i]) && now[i].id[ID_SIZE - 1] == 0
    ensures IndexedAll(source, now, texts)
  {
    forall i | 0 <= i < |was| ensures Indexed(source, now[i], texts[i]) {
      SyncMarksKeepIndex(source, was[i], now[i], texts[i]);
    }
  }
}
