/** The clipping file: versions 1 to 4 are read, version 4 is written. */
module ClippingCodec {
  import opened Bytes

  const LEGACY_VERSION := 1
  const LAYOUT_VERSION := 3
  const VERSION := 4
  const TEXT_MAX := 4096
  const HEADER_STRING_MAX := 4096
  const ID_SIZE := 65
  const TITLE_SIZE := 48
  const NO_OFFSET := 0xFFFF_FFFF

  function Zeros(n: nat): (d: Data)
    ensures |d| == n
  {
    seq(n, _ => 0)
  }

  /** The record's two char arrays. */
  type IdField = d: Data | |d| == ID_SIZE witness Zeros(ID_SIZE)
  type TitleField = d: Data | |d| == TITLE_SIZE witness Zeros(TITLE_SIZE)

  datatype Clipping = Clipping(
    spineIndex: nat, startPage: nat, endPage: nat, pageCount: nat,
    startWordIndex: nat, endWordIndex: nat, wordCount: nat, paragraphIndex: nat,
    timestamp: nat, layoutSignature: nat, startOffset: nat, endOffset: nat,
    syncRevision: nat, pendingUpload: bool,
    id: IdField, chapterTitle: TitleField, textOffset: nat, textLength: nat)

  datatype Header = Header(title: Data, author: Data, bookPath: Data)

  datatype StoreFile = StoreFile(header: Header, clippings: seq<Clipping>)

  const EMPTY_CLIPPING :=
    Clipping(0, 0, 0, 1, 0, 0, 0, 0xFFFF, 0, 0, NO_OFFSET, NO_OFFSET, 0, true, Zeros(ID_SIZE), Zeros(TITLE_SIZE), 0, 0)

  // --- Record metadata ---

  function NumbersSize(version: nat): nat {
    20 + (if version >= LAYOUT_VERSION then 4 else 0) + (if version >= VERSION then 17 else 0)
  }

  function Widths(version: nat): (widths: seq<nat>)
    ensures TotalWidth(widths) == NumbersSize(version)
  {
    var base := [2, 2, 2, 2, 2, 2, 2, 2, 4];
    var layout := if version >= LAYOUT_VERSION then [4] else [];
    var sync := if version >= VERSION then [4, 4, 8, 1] else [];
    TotalWidthAppend(base, layout);
    TotalWidthAppend(base + layout, sync);
    assert TotalWidth(base) == 20 by {
      assert base[1..][1..][1..][1..] == [2, 2, 2, 2, 4];
    }
    base + layout + sync
  }

  function Numbers(c: Clipping): (values: seq<nat>)
    ensures |values| == |Widths(VERSION)|
  {
    [c.spineIndex, c.startPage, c.endPage, c.pageCount, c.startWordIndex, c.endWordIndex, c.wordCount,
     c.paragraphIndex, c.timestamp, c.layoutSignature, c.startOffset, c.endOffset, c.syncRevision,
     if c.pendingUpload then 1 else 0]
  }

  /** Fields a version does not store keep their defaults. */
  function WithNumbers(values: seq<nat>, version: nat): Clipping
    requires |values| == |Widths(version)|
  {
    var c := EMPTY_CLIPPING.(
      spineIndex := values[0], startPage := values[1], endPage := values[2], pageCount := values[3],
      startWordIndex := values[4], endWordIndex := values[5], wordCount := values[6],
      paragraphIndex := values[7], timestamp := values[8]);
    var c := if version >= LAYOUT_VERSION then c.(layoutSignature := values[9]) else c;
    if version >= VERSION
    then c.(startOffset := values[10], endOffset := values[11], syncRevision := values[12],
            pendingUpload := values[13] != 0)
    else c
  }

  /** A char array as it stands after the reader has forced its last byte to zero. */
  function Terminated(d: Data): (t: Data)
    requires d != []
    ensures |t| == |d|
  {
    d[|d| - 1 := 0]
  }

  /** What fits the fields of the record struct: the source's integer widths and its two terminated char arrays. */
  ghost predicate Storable(c: Clipping) {
    && Fit(Widths(VERSION), Numbers(c))
    && c.id[ID_SIZE - 1] == 0
    && c.chapterTitle[TITLE_SIZE - 1] == 0
    && c.textLength <= TEXT_MAX
  }

  function IdBytes(version: nat): nat {
    if version >= VERSION then ID_SIZE else 0
  }

  function MetaSize(version: nat): nat {
    NumbersSize(version) + IdBytes(version) + TITLE_SIZE
  }

  /** A record's metadata as version `version` lays it out; the writer uses VERSION only. */
  function EncodeMeta(c: Clipping, version: nat): (d: Data)
    ensures |d| == MetaSize(version)
  {
    Pack(Widths(version), Numbers(c)[..|Widths(version)|])
    + (if version >= VERSION then c.id else [])
    + c.chapterTitle
  }

  function ParseMeta(d: Data, version: nat): (c: Clipping)
    requires |d| == MetaSize(version)
  {
    var numbers := NumbersSize(version);
    var title := numbers + IdBytes(version);
    var c := WithNumbers(Unpack(Widths(version), d[..numbers]), version);
    c.(id := if version >= VERSION then Terminated(d[numbers..title]) else Zeros(ID_SIZE),
       chapterTitle := Terminated(d[title..]))
  }

  /** What a file of that version can say of a clipping: the fields it does not store are the defaults. */
  function Remembered(c: Clipping, version: nat): Clipping {
    var c := c.(textOffset := 0, textLength := 0);
    var c := if version >= LAYOUT_VERSION then c else c.(layoutSignature := 0);
    if version >= VERSION then c
    else c.(startOffset := NO_OFFSET, endOffset := NO_OFFSET, syncRevision := 0, pendingUpload := true,
            id := Zeros(ID_SIZE))
  }

  lemma {:induction false} NumbersRoundTrip(c: Clipping, version: nat)
    requires Storable(c) && LEGACY_VERSION <= version <= VERSION
    ensures |Numbers(c)[..|Widths(version)|]| == |Widths(version)|
    ensures WithNumbers(Numbers(c)[..|Widths(version)|], version)
         == Remembered(c, version).(id := Zeros(ID_SIZE), chapterTitle := Zeros(TITLE_SIZE))
  {
  }

  lemma {:induction false} NumbersFit(c: Clipping, version: nat)
    requires Storable(c) && LEGACY_VERSION <= version <= VERSION
    ensures Fit(Widths(version), Numbers(c)[..|Widths(version)|])
  {
    assert forall i :: 0 <= i < |Widths(version)| ==> Widths(version)[i] == Widths(VERSION)[i];
  }

  lemma {:induction false} MetaRoundTrip(c: Clipping, version: nat)
    requires Storable(c) && LEGACY_VERSION <= version <= VERSION
    ensures ParseMeta(EncodeMeta(c, version), version) == Remembered(c, version)
  {
    var values := Numbers(c)[..|Widths(version)|];
    var packed, id := Pack(Widths(version), values), if version >= VERSION then c.id else [];
    NumbersFit(c, version);
    PackRoundTrip(Widths(version), values);
    NumbersRoundTrip(c, version);
    Slices(packed, id, c.chapterTitle);
    assert Terminated(c.id) == c.id && Terminated(c.chapterTitle) == c.chapterTitle;
  }

  /** What version 4 stores of a record that was read from an older version: its fields, then defaults. */
  function Upgraded(values: seq<nat>, version: nat): seq<nat> {
    if version >= VERSION then values
    else if version >= LAYOUT_VERSION then values + [NO_OFFSET, NO_OFFSET, 0, 1]
    else values + [0, NO_OFFSET, NO_OFFSET, 0, 1]
  }

  lemma {:induction false} UpgradedNumbers(values: seq<nat>, version: nat)
    requires LEGACY_VERSION <= version <= VERSION && |values| == |Widths(version)|
    ensures |Upgraded(values, version)| == |Widths(VERSION)|
    ensures forall i :: 0 <= i < 13 ==> Numbers(WithNumbers(values, version))[i] == Upgraded(values, version)[i]
  {
  }

  lemma {:induction false} UpgradedFits(values: seq<nat>, version: nat)
    requires LEGACY_VERSION <= version <= VERSION
    requires |values| == |Widths(version)| && Fit(Widths(version), values)
    ensures |Upgraded(values, version)| == |Widths(VERSION)| && Fit(Widths(VERSION), Upgraded(values, version))
  {
    assert Capacity(1) == 256 && Capacity(4) == 0x1_0000_0000 && Capacity(8) > 0;
    assert forall i :: 0 <= i < |values| ==> Widths(version)[i] == Widths(VERSION)[i];
  }

  /** Whatever version a record is read from, it can be written back as version 4. */
  lemma {:induction false} ParsedMetaIsStorable(d: Data, version: nat)
    requires LEGACY_VERSION <= version <= VERSION && |d| == MetaSize(version)
    ensures Storable(ParseMeta(d, version))
  {
    var stored := d[..NumbersSize(version)];
    var values := Unpack(Widths(version), stored);
    UnpackFits(Widths(version), stored);
    UpgradedFits(values, version);
    UpgradedNumbers(values, version);
    assert Numbers(ParseMeta(d, version)) == Numbers(WithNumbers(values, version));
  }

  // --- Records ---

  function LengthBytes(version: nat): nat {
    if version == LEGACY_VERSION then 4 else 2
  }

  function EncodeRecord(c: Clipping, text: Data, version: nat): (d: Data)
    ensures |d| == MetaSize(version) + LengthBytes(version) + |text|
  {
    EncodeMeta(c, version) + Le(|text|, LengthBytes(version)) + text
  }

  /** Reads a record at the head of `d`, which starts `base` bytes into the file. */
  function ParseRecord(d: Data, base: nat, version: nat): Option<Parsed<Clipping>> {
    var meta := MetaSize(version);
    var at := meta + LengthBytes(version);
    if |d| < at then None
    else
      var length := FromLe(d[meta..at]);
      if (version != LEGACY_VERSION && length > TEXT_MAX) || length > |d| - at then None
      else
        var kept := if length > TEXT_MAX then TEXT_MAX else length;
        Some(Parsed(ParseMeta(d[..meta], version).(textOffset := base + at, textLength := kept), at + length))
  }

  /** Version 1 alone holds longer texts, which are cut. */
  function Cut(text: Data): (kept: Data)
    ensures |kept| <= TEXT_MAX && kept <= text
  {
    if |text| > TEXT_MAX then text[..TEXT_MAX] else text
  }

  predicate TextFits(text: Data, version: nat) {
    if version == LEGACY_VERSION then |text| < 0x1_0000_0000 else |text| <= TEXT_MAX
  }

  /** The record the reader makes of `c` stored with `text` at `base`. */
  function Placed(c: Clipping, text: Data, base: nat, version: nat): Clipping {
    Remembered(c, version).(textOffset := base + MetaSize(version) + LengthBytes(version), textLength := |Cut(text)|)
  }

  /** A record is read by its three pieces. */
  lemma {:induction false} ParsePieces(meta: Data, length: Data, tail: Data, base: nat, version: nat)
    requires |meta| == MetaSize(version) && |length| == LengthBytes(version)
    requires FromLe(length) <= |tail| && (version == LEGACY_VERSION || FromLe(length) <= TEXT_MAX)
    ensures ParseRecord(meta + length + tail, base, version)
         == Some(Parsed(ParseMeta(meta, version).(
              textOffset := base + |meta| + |length|,
              textLength := if FromLe(length) > TEXT_MAX then TEXT_MAX else FromLe(length)),
              |meta| + |length| + FromLe(length)))
  {
    Slices(meta, length, tail);
  }

  lemma {:induction false} LengthRoundTrip(text: Data, version: nat)
    requires TextFits(text, version)
    ensures FromLe(Le(|text|, LengthBytes(version))) == |text|
  {
    assert Capacity(2) == 0x1_0000 && Capacity(4) == 0x1_0000_0000;
    LeRoundTrip(|text|, LengthBytes(version));
  }

  lemma {:induction false} RecordRoundTrip(c: Clipping, text: Data, rest: Data, base: nat, version: nat)
    requires LEGACY_VERSION <= version <= VERSION && Storable(c) && TextFits(text, version)
    ensures ParseRecord(EncodeRecord(c, text, version) + rest, base, version)
         == Some(Parsed(Placed(c, text, base, version), |EncodeRecord(c, text, version)|))
  {
    var meta, length := EncodeMeta(c, version), Le(|text|, LengthBytes(version));
    MetaRoundTrip(c, version);
    LengthRoundTrip(text, version);
    ParsePieces(meta, length, text + rest, base, version);
    assert EncodeRecord(c, text, version) + rest == meta + length + (text + rest);
  }

  function RecordParts(cs: seq<Clipping>, texts: seq<Data>, version: nat): (parts: seq<Data>)
    requires |texts| == |cs|
    ensures |parts| == |cs| && forall i :: 0 <= i < |cs| ==> parts[i] == EncodeRecord(cs[i], texts[i], version)
  {
    seq(|cs|, i requires 0 <= i < |cs| => EncodeRecord(cs[i], texts[i], version))
  }

  function EncodeRecords(cs: seq<Clipping>, texts: seq<Data>, version: nat): Data
    requires |texts| == |cs|
  {
    Concat(RecordParts(cs, texts, version))
  }

  function RecordParser(version: nat): Parser<Clipping> {
    (d: Data, base: nat) => ParseRecord(d, base, version)
  }

  function ParseRecords(d: Data, base: nat, version: nat, count: nat): Option<seq<Clipping>> {
    ParseMany(RecordParser(version), d, base, count)
  }

  /** `texts` are the bytes of `file` that the records of `cs` point at. */
  ghost predicate TextsAt(file: Data, cs: seq<Clipping>, texts: seq<Data>) {
    && |texts| == |cs|
    && forall i :: 0 <= i < |cs| ==> TextAt(file, cs[i], texts[i])
  }

  ghost predicate TextAt(file: Data, c: Clipping, text: Data) {
    && |text| == c.textLength
    && c.textOffset + c.textLength <= |file|
    && file[c.textOffset..c.textOffset + c.textLength] == text
  }

  ghost predicate Writable(cs: seq<Clipping>, texts: seq<Data>, version: nat) {
    && LEGACY_VERSION <= version <= VERSION
    && |texts| == |cs|
    && forall i :: 0 <= i < |cs| ==> Storable(cs[i]) && TextFits(texts[i], version)
  }

  lemma {:induction false} PlacedTextAt(before: Data, c: Clipping, text: Data, rest: Data, version: nat)
    ensures TextAt(before + EncodeRecord(c, text, version) + rest, Placed(c, text, |before|, version), Cut(text))
  {
    var head := before + (EncodeMeta(c, version) + Le(|text|, LengthBytes(version)));
    assert before + EncodeRecord(c, text, version) + rest == head + text + rest;
    Slices(head, Cut(text), text[|Cut(text)|..] + rest);
    assert head + Cut(text) + (text[|Cut(text)|..] + rest) == head + text + rest;
  }

  /** Where record `i` of a file whose records start at `base` comes to lie. */
  function RecordAt(cs: seq<Clipping>, texts: seq<Data>, base: nat, version: nat, i: nat): nat
    requires i < |cs| == |texts|
  {
    base + |Concat(RecordParts(cs, texts, version)[..i])|
  }

  function PlacedAll(cs: seq<Clipping>, texts: seq<Data>, base: nat, version: nat): (placed: seq<Clipping>)
    requires |texts| == |cs|
    ensures |placed| == |cs|
    ensures forall i :: 0 <= i < |cs| ==>
      placed[i] == Placed(cs[i], texts[i], RecordAt(cs, texts, base, version, i), version)
  {
    seq(|cs|, i requires 0 <= i < |cs| => Placed(cs[i], texts[i], RecordAt(cs, texts, base, version, i), version))
  }

  function CutAll(texts: seq<Data>): (kept: seq<Data>)
    ensures |kept| == |texts| && forall i :: 0 <= i < |texts| ==> kept[i] == Cut(texts[i])
  {
    seq(|texts|, i requires 0 <= i < |texts| => Cut(texts[i]))
  }

  lemma {:induction false} Regroup(a: Data, b: Data, c: Data, d: Data)
    ensures a + (b + c + d) == (a + b) + c + d
  {
  }

  lemma {:induction false} PlacedRecordAt(before: Data, cs: seq<Clipping>, texts: seq<Data>, version: nat, i: nat)
    requires i < |cs| == |texts|
    ensures TextAt(before + EncodeRecords(cs, texts, version), PlacedAll(cs, texts, |before|, version)[i],
                   Cut(texts[i]))
  {
    var parts := RecordParts(cs, texts, version);
    var front, rest := before + Concat(parts[..i]), Concat(parts[i + 1..]);
    PlacedTextAt(front, cs[i], texts[i], rest, version);
    assert before + EncodeRecords(cs, texts, version) == front + EncodeRecord(cs[i], texts[i], version) + rest by {
      ConcatAround(parts, i);
      Regroup(before, Concat(parts[..i]), parts[i], rest);
    }
  }

  lemma {:induction false} RecordReads(c: Clipping, text: Data, base: nat, version: nat)
    requires LEGACY_VERSION <= version <= VERSION && Storable(c) && TextFits(text, version)
    ensures Reads(RecordParser(version), EncodeRecord(c, text, version), base, Placed(c, text, base, version))
  {
    var part, item := EncodeRecord(c, text, version), Placed(c, text, base, version);
    forall rest: Data ensures RecordParser(version)(part + rest, base) == Some(Parsed(item, |part|)) {
      RecordRoundTrip(c, text, rest, base, version);
    }
  }

  lemma {:induction false} RecordReadsAt(base: nat, cs: seq<Clipping>, texts: seq<Data>, version: nat, i: nat)
    requires Writable(cs, texts, version) && i < |cs|
    ensures ReadsPart(RecordParser(version), base, RecordParts(cs, texts, version),
                      PlacedAll(cs, texts, base, version), i)
  {
    var at := RecordAt(cs, texts, base, version, i);
    RecordReads(cs[i], texts[i], at, version);
    ReadsPartOf(RecordParser(version), base, RecordParts(cs, texts, version), PlacedAll(cs, texts, base, version), i,
                EncodeRecord(cs[i], texts[i], version), at, Placed(cs[i], texts[i], at, version));
  }

  lemma {:induction false} RecordsRead(base: nat, cs: seq<Clipping>, texts: seq<Data>, version: nat)
    requires Writable(cs, texts, version)
    ensures ReadsEach(RecordParser(version), base, RecordParts(cs, texts, version), PlacedAll(cs, texts, base, version))
  {
    forall i | 0 <= i < |cs|
      ensures ReadsPart(RecordParser(version), base, RecordParts(cs, texts, version),
                        PlacedAll(cs, texts, base, version), i)
    {
      RecordReadsAt(base, cs, texts, version, i);
    }
  }

  lemma {:induction false} RecordsRoundTrip(before: Data, cs: seq<Clipping>, texts: seq<Data>, version: nat)
    requires Writable(cs, texts, version)
    ensures ParseRecords(EncodeRecords(cs, texts, version), |before|, version, |cs|)
         == Some(PlacedAll(cs, texts, |before|, version))
    ensures TextsAt(before + EncodeRecords(cs, texts, version), PlacedAll(cs, texts, |before|, version), CutAll(texts))
  {
    var parts, read := RecordParts(cs, texts, version), PlacedAll(cs, texts, |before|, version);
    RecordsRead(|before|, cs, texts, version);
    ParseManyReads(RecordParser(version), |before|, parts, read, 0);
    assert parts[0..] == parts && parts[..0] == [] && read[0..] == read;
    forall i | 0 <= i < |cs| ensures TextAt(before + EncodeRecords(cs, texts, version), read[i], CutAll(texts)[i]) {
      PlacedRecordAt(before, cs, texts, version, i);
    }
  }

  /** The writer appends one record at a time. */
  lemma {:induction false} EncodeRecordsAppend(cs: seq<Clipping>, texts: seq<Data>, k: nat)
    requires k < |cs| == |texts|
    ensures EncodeRecords(cs[..k + 1], texts[..k + 1], VERSION)
         == EncodeRecords(cs[..k], texts[..k], VERSION) + EncodeRecord(cs[k], texts[k], VERSION)
  {
    var front := RecordParts(cs[..k], texts[..k], VERSION);
    ConcatAppend(front, EncodeRecord(cs[k], texts[k], VERSION));
    assert RecordParts(cs[..k + 1], texts[..k + 1], VERSION) == front + [EncodeRecord(cs[k], texts[k], VERSION)];
  }

  // --- The whole file ---

  function EncodeString(s: Data): Data {
    Le(|s|, 4) + s
  }

  function ParseString(d: Data): Option<Parsed<Data>> {
    if |d| < 4 then None
    else
      var length := FromLe(d[..4]);
      if length > HEADER_STRING_MAX || length > |d| - 4 then None
      else Some(Parsed(d[4..4 + length], 4 + length))
  }

  lemma {:induction false} StringRoundTrip(s: Data, rest: Data)
    requires |s| <= HEADER_STRING_MAX
    ensures ParseString(EncodeString(s) + rest) == Some(Parsed(s, |EncodeString(s)|))
  {
    var d := EncodeString(s) + rest;
    LeRoundTrip(|s|, 4);
    assert Capacity(4) == 0x1_0000_0000;
    assert d[..4] == Le(|s|, 4);
    assert d[4..4 + |s|] == s;
  }

  function ParseStrings(d: Data): Option<Parsed<Header>> {
    match ParseString(d)
    case None => None
    case Some(Parsed(title, t)) =>
      match ParseString(d[t..])
      case None => None
      case Some(Parsed(author, a)) =>
        match ParseString(d[t + a..])
        case None => None
        case Some(Parsed(bookPath, p)) => Some(Parsed(Header(title, author, bookPath), t + a + p))
  }

  function EncodeStrings(h: Header): Data {
    EncodeString(h.title) + EncodeString(h.author) + EncodeString(h.bookPath)
  }

  predicate HeaderFits(h: Header) {
    |h.title| <= HEADER_STRING_MAX && |h.author| <= HEADER_STRING_MAX && |h.bookPath| <= HEADER_STRING_MAX
  }

  lemma {:induction false} ParseStringsOf(t: Data, a: Data, p: Data, rest: Data, h: Header)
    requires ParseString(t + (a + p + rest)) == Some(Parsed(h.title, |t|))
    requires ParseString(a + (p + rest)) == Some(Parsed(h.author, |a|))
    requires ParseString(p + rest) == Some(Parsed(h.bookPath, |p|))
    ensures ParseStrings(t + a + p + rest) == Some(Parsed(h, |t| + |a| + |p|))
  {
    var d := t + a + p + rest;
    assert d == t + (a + p + rest);
    assert d[|t|..] == a + (p + rest);
    assert d[|t| + |a|..] == p + rest;
  }

  lemma {:induction false} StringsRoundTrip(h: Header, rest: Data)
    requires HeaderFits(h)
    ensures ParseStrings(EncodeStrings(h) + rest) == Some(Parsed(h, |EncodeStrings(h)|))
  {
    var t, a, p := EncodeString(h.title), EncodeString(h.author), EncodeString(h.bookPath);
    StringRoundTrip(h.title, a + p + rest);
    StringRoundTrip(h.author, p + rest);
    StringRoundTrip(h.bookPath, rest);
    ParseStringsOf(t, a, p, rest, h);
  }

  function EncodeHead(h: Header, count: nat, version: Byte): Data {
    [version] + Le(count, 2) + EncodeStrings(h)
  }

  function EncodeStore(h: Header, cs: seq<Clipping>, texts: seq<Data>, version: Byte): Data
    requires |texts| == |cs|
  {
    EncodeHead(h, |cs|, version) + EncodeRecords(cs, texts, version)
  }

  /** The head of the file: version, record count and header, with the bytes they take. */
  function ParseHead(d: Data, limit: nat): Option<Parsed<(nat, nat, Header)>> {
    if |d| < 1 || d[0] < LEGACY_VERSION || d[0] > VERSION || |d| < 3 then None
    else
      match ParseStrings(d[3..])
      case None => None
      case Some(Parsed(h, used)) =>
        var count := FromLe(d[1..3]);
        if count > limit then None else Some(Parsed((d[0], count, h), 3 + used))
  }

  /** The file as the reader sees it, for a device that keeps at most `limit` clippings a book. */
  function ParseStore(d: Data, limit: nat): Option<StoreFile> {
    match ParseHead(d, limit)
    case None => None
    case Some(Parsed((version, count, h), used)) =>
      match ParseRecords(d[used..], used, version, count)
      case None => None
      case Some(cs) => Some(StoreFile(h, cs))
  }

  lemma {:induction false} HeadNumbers(count: nat, tail: Data, version: Byte)
    requires count <= 0xFFFF
    ensures var d := [version] + Le(count, 2) + tail;
            d[0] == version && FromLe(d[1..3]) == count && d[3..] == tail
  {
    LeRoundTrip(count, 2);
    assert Capacity(2) == 0x1_0000;
    Slices([version], Le(count, 2), tail);
  }

  lemma {:induction false} HeadRoundTrip(h: Header, count: nat, rest: Data, limit: nat, version: Byte)
    requires HeaderFits(h) && count <= limit <= 0xFFFF && LEGACY_VERSION <= version <= VERSION
    ensures ParseHead(EncodeHead(h, count, version) + rest, limit)
         == Some(Parsed((version, count, h), |EncodeHead(h, count, version)|))
  {
    var tail := EncodeStrings(h) + rest;
    assert EncodeHead(h, count, version) + rest == [version] + Le(count, 2) + tail;
    HeadNumbers(count, tail, version);
    StringsRoundTrip(h, rest);
  }

  /** A file of any version, read back: the same records with what that version stores of them, each
      pointing at its own text, which only version 1 can hold too long to keep whole. */
  lemma {:induction false} StoreRoundTrip(h: Header, cs: seq<Clipping>, texts: seq<Data>, limit: nat, version: Byte)
    returns (read: seq<Clipping>)
    requires HeaderFits(h) && |cs| <= limit <= 0xFFFF && Writable(cs, texts, version)
    ensures ParseStore(EncodeStore(h, cs, texts, version), limit) == Some(StoreFile(h, read))
    ensures SameClippings(read, RememberedAll(cs, version))
    ensures TextsAt(EncodeStore(h, cs, texts, version), read, CutAll(texts))
  {
    var head, records := EncodeHead(h, |cs|, version), EncodeRecords(cs, texts, version);
    HeadRoundTrip(h, |cs|, records, limit, version);
    assert (head + records)[|head|..] == records;
    RecordsRoundTrip(head, cs, texts, version);
    read := PlacedAll(cs, texts, |head|, version);
  }

  /** The files this device writes stay far below the 32-bit offsets it keeps in memory. */
  lemma {:induction false} RecordsFitOffsets(cs: seq<Clipping>, texts: seq<Data>)
    requires |texts| == |cs| && forall i :: 0 <= i < |texts| ==> |texts[i]| <= TEXT_MAX
    ensures |EncodeRecords(cs, texts, VERSION)| <= 4252 * |cs|
    decreases |cs|
  {
    if cs != [] {
      var n := |cs| - 1;
      RecordsFitOffsets(cs[..n], texts[..n]);
      EncodeRecordsAppend(cs, texts, n);
      assert cs[..n + 1] == cs && texts[..n + 1] == texts;
      assert MetaSize(VERSION) == 154;
    }
  }

  lemma {:induction false} StoreFitsOffsets(h: Header, cs: seq<Clipping>, texts: seq<Data>)
    requires HeaderFits(h) && |cs| <= 0xFFFF && Writable(cs, texts, VERSION)
    ensures |EncodeStore(h, cs, texts, VERSION)| < 0x1_0000_0000
  {
    RecordsFitOffsets(cs, texts);
  }

  // --- Rewriting ---

  /** Equal but for where the text is. */
  predicate SameClipping(a: Clipping, b: Clipping) {
    a.(textOffset := 0, textLength := 0) == b.(textOffset := 0, textLength := 0)
  }

  /** That is, in every other field. */
  lemma {:induction false} SameFields(a: Clipping, b: Clipping)
    ensures SameClipping(a, b) <==>
            && a.spineIndex == b.spineIndex && a.startPage == b.startPage && a.endPage == b.endPage
            && a.pageCount == b.pageCount && a.startWordIndex == b.startWordIndex && a.endWordIndex == b.endWordIndex
            && a.wordCount == b.wordCount && a.paragraphIndex == b.paragraphIndex && a.timestamp == b.timestamp
            && a.layoutSignature == b.layoutSignature && a.startOffset == b.startOffset && a.endOffset == b.endOffset
            && a.syncRevision == b.syncRevision && a.pendingUpload == b.pendingUpload && a.id == b.id
            && a.chapterTitle == b.chapterTitle
  {
  }

  ghost predicate SameClippings(xs: seq<Clipping>, ys: seq<Clipping>) {
    |xs| == |ys| && forall i :: 0 <= i < |xs| ==> SameClipping(xs[i], ys[i])
  }

  function RememberedAll(cs: seq<Clipping>, version: nat): (known: seq<Clipping>)
    ensures |known| == |cs| && forall i :: 0 <= i < |cs| ==> known[i] == Remembered(cs[i], version)
  {
    seq(|cs|, i requires 0 <= i < |cs| => Remembered(cs[i], version))
  }

  ghost predicate Readable(file: Data, c: Clipping) {
    Storable(c) && c.textOffset + c.textLength <= |file|
  }

  ghost predicate AllReadable(file: Data, cs: seq<Clipping>) {
    forall i :: 0 <= i < |cs| ==> Readable(file, cs[i])
  }

  /** The bytes the records of `cs` point at. */
  ghost function StoredTexts(file: Data, cs: seq<Clipping>): (texts: seq<Data>)
    requires AllReadable(file, cs)
    ensures TextsAt(file, cs, texts)
  {
    seq(|cs|, i requires 0 <= i < |cs| =>
      file[cs[i].textOffset..cs[i].textOffset + cs[i].textLength])
  }

  lemma {:induction false} ParsedRecordIsReadable(before: Data, d: Data, version: nat)
    requires LEGACY_VERSION <= version <= VERSION
    ensures var r := ParseRecord(d, |before|, version);
            r.Some? ==> r.value.used <= |d| && Readable(before + d, r.value.value)
  {
    var meta := MetaSize(version);
    if ParseRecord(d, |before|, version).Some? {
      ParsedMetaIsStorable(d[..meta], version);
      assert Numbers(ParseMeta(d[..meta], version)) == Numbers(ParseRecord(d, |before|, version).value.value);
    }
  }

  lemma {:induction false} OneMoreReadable(file: Data, c: Clipping, cs: seq<Clipping>)
    requires Readable(file, c) && AllReadable(file, cs)
    ensures AllReadable(file, [c] + cs)
  {
  }

  lemma {:induction false} ParsedRecordsAreReadable(before: Data, d: Data, version: nat, count: nat)
    requires LEGACY_VERSION <= version <= VERSION
    ensures var r := ParseRecords(d, |before|, version, count);
            r.Some? ==> |r.value| == count && AllReadable(before + d, r.value)
    decreases count
  {
    if count > 0 && ParseRecords(d, |before|, version, count).Some? {
      ParsedRecordIsReadable(before, d, version);
      var used := ParseRecord(d, |before|, version).value.used;
      var front := before + d[..used];
      assert front + d[used..] == before + d && |front| == |before| + used;
      ParsedRecordsAreReadable(front, d[used..], version, count - 1);
      OneMoreReadable(before + d, ParseRecord(d, |before|, version).value.value,
                      ParseRecords(d[used..], |front|, version, count - 1).value);
    }
  }

  lemma {:induction false} ParsedStoreIsReadable(d: Data, limit: nat)
    ensures var f := ParseStore(d, limit);
            f.Some? ==> |f.value.clippings| <= limit && AllReadable(d, f.value.clippings)
  {
    if ParseStore(d, limit).Some? {
      ParseHeadBounds(d, limit);
      var Parsed((version, count, h), used) := ParseHead(d, limit).value;
      ParsedRecordsAreReadable(d[..used], d[used..], version, count);
      assert d[..used] + d[used..] == d;
    }
  }

  lemma {:induction false} ParseHeadBounds(d: Data, limit: nat)
    ensures ParseHead(d, limit).Some? ==>
      && ParseHead(d, limit).value.used <= |d| && HeaderFits(ParseHead(d, limit).value.value.2)
      && LEGACY_VERSION <= ParseHead(d, limit).value.value.0 <= VERSION
  {
  }

  lemma {:induction false} StoredTextsFit(d: Data, cs: seq<Clipping>)
    requires AllReadable(d, cs)
    ensures Writable(cs, StoredTexts(d, cs), VERSION)
    ensures CutAll(StoredTexts(d, cs)) == StoredTexts(d, cs)
  {
    var texts := StoredTexts(d, cs);
    forall i | 0 <= i < |texts| ensures |texts[i]| <= TEXT_MAX {
      assert TextAt(d, cs[i], texts[i]) && Readable(d, cs[i]);
    }
  }

  lemma {:induction false} RememberedWhole(read: seq<Clipping>, cs: seq<Clipping>)
    requires SameClippings(read, RememberedAll(cs, VERSION))
    ensures SameClippings(read, cs)
  {
    forall i | 0 <= i < |cs| ensures SameClipping(read[i], cs[i]) {
      assert SameClipping(read[i], RememberedAll(cs, VERSION)[i]);
    }
  }

  /** Loading a file of any version, rewriting it and loading again keeps every clipping and its text. */
  lemma {:induction false} RewriteKeepsClippings(d: Data, limit: nat, h: Header) returns (again: seq<Clipping>)
    requires ParseStore(d, limit).Some? && limit <= 0xFFFF && HeaderFits(h)
    ensures var cs := ParseStore(d, limit).value.clippings;
            && AllReadable(d, cs)
            && var rewritten := EncodeStore(h, cs, StoredTexts(d, cs), VERSION);
            && ParseStore(rewritten, limit) == Some(StoreFile(h, again))
            && SameClippings(again, cs)
            && TextsAt(rewritten, again, StoredTexts(d, cs))
  {
    ParsedStoreIsReadable(d, limit);
    var cs := ParseStore(d, limit).value.clippings;
    StoredTextsFit(d, cs);
    again := StoreRoundTrip(h, cs, StoredTexts(d, cs), limit, VERSION);
    RememberedWhole(again, cs);
  }
}
