/** Where everything in a clipping file is, byte by byte: what files that are on a card already mean. */
module ClippingLayout {
  import opened Bytes
  import opened ClippingCodec

  // --- Little-endian numbers ---

  ghost function Half(low: nat, high: nat): nat {
    low + 256 * high
  }

  ghost function Word(b0: nat, b1: nat, b2: nat, b3: nat): nat {
    b0 + 256 * b1 + 0x1_0000 * b2 + 0x100_0000 * b3
  }

  lemma {:induction false} Le2(d: Data)
    requires |d| == 2
    ensures FromLe(d) == Half(d[0], d[1])
  {
    assert d[1..][1..] == [];
    assert FromLe(d[1..]) == d[1];
  }

  lemma {:induction false} Le4(d: Data)
    requires |d| == 4
    ensures FromLe(d) == Word(d[0], d[1], d[2], d[3])
  {
    Le2(d[2..]);
    assert d[1..][1..] == d[2..];
  }

  lemma {:induction false} Le8(d: Data)
    requires |d| == 8
    ensures FromLe(d) == Word(d[0], d[1], d[2], d[3])
                         + 0x1_0000_0000 * Word(d[4], d[5], d[6], d[7])
  {
    Le4(d[4..]);
    assert d[1..][1..] == d[2..] && d[2..][1..] == d[3..] && d[3..][1..] == d[4..];
    assert FromLe(d[2..]) == d[2] + 256 * (d[3] + 256 * FromLe(d[4..]));
  }

  // --- Where the numbers start ---

  const STARTS: seq<nat> := [0, 2, 4, 6, 8, 10, 12, 14, 16, 20, 24, 28, 32, 40]

  lemma {:induction false} StartIs(version: nat, i: nat)
    requires i < |Widths(version)|
    ensures TotalWidth(Widths(version)[..i]) == STARTS[i]
  {
    var widths := Widths(version);
    if i > 0 {
      StartIs(version, i - 1);
      TotalWidthAppend(widths[..i - 1], [widths[i - 1]]);
      assert widths[..i] == widths[..i - 1] + [widths[i - 1]];
      assert TotalWidth([widths[i - 1]]) == widths[i - 1] by {
        assert [widths[i - 1]][1..] == [];
      }
    }
  }

  lemma {:induction false} NumberAt(widths: seq<nat>, d: Data, i: nat, at: nat)
    requires |d| == TotalWidth(widths) && i < |widths| && at == TotalWidth(widths[..i])
    ensures at + widths[i] <= |d| && Unpack(widths, d)[i] == FromLe(d[at..at + widths[i]])
  {
    UnpackStep(widths, d);
    if i == 0 {
      assert d[0..widths[0]] == d[..widths[0]];
    } else {
      var w, ws := widths[0], widths[1..];
      WidthBehind(widths, i);
      NumberAt(ws, d[w..], i - 1, at - w);
      SliceOfRest(d, w, at - w, at - w + ws[i - 1]);
    }
  }

  lemma {:induction false} UnpackStep(widths: seq<nat>, d: Data)
    requires |d| == TotalWidth(widths) && widths != []
    ensures widths[0] <= |d| && |d[widths[0]..]| == TotalWidth(widths[1..])
    ensures Unpack(widths, d) == [FromLe(d[..widths[0]])] + Unpack(widths[1..], d[widths[0]..])
  {
  }

  lemma {:induction false} WidthBehind(widths: seq<nat>, i: nat)
    requires 0 < i <= |widths|
    ensures TotalWidth(widths[..i]) == widths[0] + TotalWidth(widths[1..][..i - 1])
  {
    assert widths[..i][1..] == widths[1..][..i - 1];
  }

  lemma {:induction false} SliceOfRest(d: Data, from: nat, lo: nat, hi: nat)
    requires lo <= hi && from + hi <= |d|
    ensures d[from..][lo..hi] == d[from + lo..from + hi]
  {
  }

  lemma {:induction false} NumberIs(d: Data, version: nat, i: nat)
    requires |d| == MetaSize(version) && i < |Widths(version)|
    ensures STARTS[i] + Widths(version)[i] <= NumbersSize(version)
    ensures Unpack(Widths(version), d[..NumbersSize(version)])[i]
         == FromLe(d[STARTS[i]..STARTS[i] + Widths(version)[i]])
  {
    var stored, at := d[..NumbersSize(version)], STARTS[i];
    StartIs(version, i);
    NumberAt(Widths(version), stored, i, at);
    assert stored[at..at + Widths(version)[i]] == d[at..at + Widths(version)[i]];
  }

  // --- A record's metadata ---

  lemma {:induction false} HalfIs(d: Data, version: nat, i: nat)
    requires |d| == MetaSize(version) && i < 8
    ensures Unpack(Widths(version), d[..NumbersSize(version)])[i] == Half(d[2 * i], d[2 * i + 1])
  {
    NumberIs(d, version, i);
    Le2(d[2 * i..2 * i + 2]);
  }

  lemma {:induction false} WordIs(d: Data, version: nat, i: nat, at: nat)
    requires |d| == MetaSize(version) && i < |Widths(version)| && Widths(version)[i] == 4 && at == STARTS[i]
    ensures at + 4 <= |d|
    ensures Unpack(Widths(version), d[..NumbersSize(version)])[i]
         == Word(d[at], d[at + 1], d[at + 2], d[at + 3])
  {
    NumberIs(d, version, i);
    Le4(d[at..at + 4]);
  }

  /** The fields every version stores. */
  lemma {:induction false} PlaceFields(d: Data, version: nat)
    requires LEGACY_VERSION <= version <= VERSION && |d| == MetaSize(version)
    ensures |d| == [68, 68, 72, 154][version - 1]
    ensures var c := ParseMeta(d, version);
            && c.spineIndex == Half(d[0], d[1])
            && c.startPage == Half(d[2], d[3])
            && c.endPage == Half(d[4], d[5])
            && c.pageCount == Half(d[6], d[7])
            && c.startWordIndex == Half(d[8], d[9])
            && c.endWordIndex == Half(d[10], d[11])
            && c.wordCount == Half(d[12], d[13])
            && c.paragraphIndex == Half(d[14], d[15])
            && c.timestamp == Word(d[16], d[17], d[18], d[19])
  {
    forall i: nat | i < 8
      ensures Unpack(Widths(version), d[..NumbersSize(version)])[i] == Half(d[2 * i], d[2 * i + 1])
    {
      HalfIs(d, version, i);
    }
    WordIs(d, version, 8, 16);
  }

  /** The layout signature is stored from version 3 on. */
  lemma {:induction false} SignatureField(d: Data, version: nat)
    requires LEGACY_VERSION <= version <= VERSION && |d| == MetaSize(version)
    ensures ParseMeta(d, version).layoutSignature ==
            if version >= 3 then Word(d[20], d[21], d[22], d[23]) else 0
  {
    if version >= LAYOUT_VERSION {
      WordIs(d, version, 9, 20);
    }
  }

  /** Character offsets, the marks of the sync and the id are stored in version 4 alone. */
  lemma {:induction false} OffsetFields(d: Data)
    requires |d| == MetaSize(VERSION)
    ensures var c := ParseMeta(d, 4);
            && c.startOffset == Word(d[24], d[25], d[26], d[27])
            && c.endOffset == Word(d[28], d[29], d[30], d[31])
  {
    WordIs(d, 4, 10, 24);
    WordIs(d, 4, 11, 28);
  }

  lemma {:induction false} RevisionField(d: Data)
    requires |d| == MetaSize(VERSION)
    ensures ParseMeta(d, 4).syncRevision == Word(d[32], d[33], d[34], d[35])
                                            + 0x1_0000_0000 * Word(d[36], d[37], d[38], d[39])
  {
    NumberIs(d, 4, 12);
    Le8(d[32..40]);
  }

  lemma {:induction false} MarkFields(d: Data)
    requires |d| == MetaSize(VERSION)
    ensures ParseMeta(d, 4).pendingUpload == (d[40] != 0)
    ensures ParseMeta(d, 4).id == d[41..105] + [0]
  {
    NumberIs(d, 4, 13);
    assert d[40..41][1..] == [];
    assert Terminated(d[41..106]) == d[41..105] + [0];
  }

  lemma {:induction false} NoSyncFields(d: Data, version: nat)
    requires LEGACY_VERSION <= version < VERSION && |d| == MetaSize(version)
    ensures var c := ParseMeta(d, version);
            && c.startOffset == c.endOffset == 0xFFFF_FFFF
            && c.syncRevision == 0 && c.pendingUpload
            && forall k :: 0 <= k < 65 ==> c.id[k] == 0
  {
  }

  /** The chapter title comes last; the last byte of a char array is always zero. */
  lemma {:induction false} TitleField(d: Data, version: nat)
    requires LEGACY_VERSION <= version <= VERSION && |d| == MetaSize(version)
    ensures ParseMeta(d, version).chapterTitle ==
            (if version < 3 then d[20..67] else if version == 3 then d[24..71] else d[106..153]) + [0]
  {
    var at := MetaSize(version) - TITLE_SIZE;
    assert Terminated(d[at..]) == d[at..at + 47] + [0];
  }

  // --- Records ---

  /** The text's length in front of it: four bytes in version 1, which cuts what is too long, and two in the others,
      which refuse it. A record of which a byte is missing is none. */
  lemma {:induction false} RecordLayout(d: Data, base: nat, version: nat, meta: nat, at: nat)
    requires LEGACY_VERSION <= version <= VERSION && meta == [68, 68, 72, 154][version - 1]
    requires at == meta + if version == 1 then 4 else 2
    ensures |d| < at ==> ParseRecord(d, base, version) == None
    ensures |d| >= at ==>
      var length := if version == 1 then Word(d[meta], d[meta + 1], d[meta + 2], d[meta + 3])
                    else Half(d[meta], d[meta + 1]);
      if at + length > |d| || (version > 1 && length > 4096) then ParseRecord(d, base, version) == None
      else
        ParseRecord(d, base, version)
        == Some(Parsed(ParseMeta(d[..meta], version).(
                         textOffset := base + at, textLength := if length > 4096 then 4096 else length),
                       at + length))
  {
    assert MetaSize(version) == meta && LengthBytes(version) == at - meta;
    if |d| >= at {
      LengthIs(d, version, meta, at);
    }
  }

  lemma {:induction false} LengthIs(d: Data, version: nat, meta: nat, at: nat)
    requires at == meta + (if version == 1 then 4 else 2) <= |d|
    ensures FromLe(d[meta..at]) == if version == 1 then Word(d[meta], d[meta + 1], d[meta + 2], d[meta + 3])
                                   else Half(d[meta], d[meta + 1])
  {
    if version == 1 {
      Le4(d[meta..at]);
    } else {
      Le2(d[meta..at]);
    }
  }

  // --- The head ---

  /** A string of the head at `at`: four bytes of length, then its own. */
  ghost predicate StringAt(d: Data, at: nat, s: Data) {
    && |s| <= 4096 && at + 4 + |s| <= |d|
    && |s| == Word(d[at], d[at + 1], d[at + 2], d[at + 3])
    && d[at + 4..at + 4 + |s|] == s
  }

  lemma {:induction false} StringLayout(d: Data, at: nat, s: Data)
    requires at <= |d|
    ensures ParseString(d[at..]) == Some(Parsed(s, 4 + |s|)) <==> StringAt(d, at, s)
  {
    if |d[at..]| >= 4 {
      Le4(d[at..][..4]);
      assert |s| <= |d| - at - 4 ==> d[at..][4..4 + |s|] == d[at + 4..at + 4 + |s|];
    }
  }

  lemma {:induction false} ParsedUses(d: Data)
    ensures ParseString(d).Some? ==>
      ParseString(d).value.used == 4 + |ParseString(d).value.value| <= |d|
  {
  }

  /** The three strings of a head that starts at `at`. */
  ghost predicate StringsAt(d: Data, at: nat, h: Header) {
    && StringAt(d, at, h.title)
    && StringAt(d, at + 4 + |h.title|, h.author)
    && StringAt(d, at + 8 + |h.title| + |h.author|, h.bookPath)
  }

  /** Three strings are read, each where the one before it ends. */
  ghost predicate ReadsThree(d: Data, at: nat, h: Header) {
    var author, path := at + 4 + |h.title|, at + 8 + |h.title| + |h.author|;
    && path <= |d|
    && ParseString(d[at..]) == Some(Parsed(h.title, 4 + |h.title|))
    && ParseString(d[author..]) == Some(Parsed(h.author, 4 + |h.author|))
    && ParseString(d[path..]) == Some(Parsed(h.bookPath, 4 + |h.bookPath|))
  }

  lemma {:induction false} ParsesThree(d: Data, at: nat, h: Header)
    requires ReadsThree(d, at, h)
    ensures ParseStrings(d[at..]) == Some(Parsed(h, 12 + |h.title| + |h.author| + |h.bookPath|))
  {
    assert d[at..][4 + |h.title|..] == d[at + 4 + |h.title|..];
    assert d[at..][8 + |h.title| + |h.author|..] == d[at + 8 + |h.title| + |h.author|..];
  }

  lemma {:induction false} ParsedThree(d: Data, at: nat)
    requires at <= |d| && ParseStrings(d[at..]).Some?
    ensures ReadsThree(d, at, ParseStrings(d[at..]).value.value)
  {
    var h := ParseStrings(d[at..]).value.value;
    ParsedUses(d[at..]);
    ParsedUses(d[at..][4 + |h.title|..]);
    assert d[at..][4 + |h.title|..] == d[at + 4 + |h.title|..];
    assert d[at..][8 + |h.title| + |h.author|..] == d[at + 8 + |h.title| + |h.author|..];
  }

  lemma {:induction false} ThreeStrings(d: Data, at: nat, h: Header)
    ensures ReadsThree(d, at, h) <==> StringsAt(d, at, h)
  {
    var author, path := at + 4 + |h.title|, at + 8 + |h.title| + |h.author|;
    if path <= |d| {
      StringLayout(d, at, h.title);
      StringLayout(d, author, h.author);
      StringLayout(d, path, h.bookPath);
    }
  }

  /** Version, count, then title, author and path of the book: a head is exactly these bytes. */
  lemma {:induction false} HeadLayout(d: Data, limit: nat, version: nat, count: nat, h: Header)
    ensures ParseHead(d, limit) == Some(Parsed((version, count, h), 15 + |h.title| + |h.author| + |h.bookPath|)) <==>
            && 3 <= |d| && 1 <= version <= 4 && version == d[0] && count == Half(d[1], d[2]) && count <= limit
            && StringsAt(d, 3, h)
  {
    if |d| >= 3 {
      Le2(d[1..3]);
      ThreeStrings(d, 3, h);
      if ReadsThree(d, 3, h) {
        ParsesThree(d, 3, h);
      } else if ParseStrings(d[3..]).Some? {
        ParsedThree(d, 3);
      }
    }
  }
}
