/** The page's own glyph tables of a style and how a prewarm rebuilds them (SdCardFont::prewarmStyle). */
module MiniFont {
  import opened Bytes
  import opened Card
  import opened FontData
  import opened Intervals
  import opened MiniLayout
  import opened MiniRead
  import opened SdStyle
  import Kerning
  import MiniKern

  const MAX_PAGE_GLYPHS := 512
  const PREWARM_ARENA_TOO_LARGE := -2

  /** The entry of one resident codepoint: as in the file, and for a full page with its bitmap in the arena. */
  ghost predicate EntryOk(style: StyleFile, cp: nat, glyph: EpdGlyph, bitmap: Data, metadataOnly: bool) {
    if metadataOnly then FileEntry(style, cp) == Some(glyph) else Rewritten(style, cp, glyph, bitmap, |bitmap|)
  }

  /** The page's tables hold exactly the codepoints `resident`. */
  ghost predicate PageOk(style: StyleFile, resident: seq<nat>, ivs: seq<EpdUnicodeInterval>, glyphs: seq<EpdGlyph>,
                         bitmap: Data, metadataOnly: bool)
  {
    && Ascends(resident) && Words(resident) && AllCovered(style, resident) && |resident| <= MAX_PAGE_GLYPHS
    && RunsOf(ivs, resident) && |glyphs| == |resident|
    && forall k :: 0 <= k < |resident| ==> EntryOk(style, resident[k], glyphs[k], bitmap, metadataOnly)
  }

  /** Every requested codepoint that the font covers is resident. */
  ghost predicate Serves(style: StyleFile, resident: seq<nat>, request: seq<nat>) {
    forall i :: 0 <= i < |request| && GlyphIndex(style, request[i]).Some? ==> request[i] in resident
  }

  /** Bitmap bytes of a set of codepoints. */
  function ArenaBytes(style: StyleFile, cps: seq<nat>): nat {
    if cps == [] then 0 else
      ArenaBytes(style, cps[..|cps| - 1])
      + if FileEntry(style, cps[|cps| - 1]).Some? then FileEntry(style, cps[|cps| - 1]).value.dataLength else 0
  }

  lemma {:induction false} ArenaIs(style: StyleFile, cps: seq<nat>, glyphs: seq<EpdGlyph>)
    requires |glyphs| == |cps| && forall k :: 0 <= k < |cps| ==> FileEntry(style, cps[k]) == Some(glyphs[k])
    ensures LengthOf(glyphs, Places(|glyphs|)) == ArenaBytes(style, cps)
  {
    ArenaUpTo(style, cps, glyphs, |cps|);
    assert cps[..|cps|] == cps && Places(|glyphs|)[..|cps|] == Places(|glyphs|);
  }

  lemma {:induction false} ArenaUpTo(style: StyleFile, cps: seq<nat>, glyphs: seq<EpdGlyph>, n: nat)
    requires n <= |glyphs| == |cps| && forall k :: 0 <= k < |cps| ==> FileEntry(style, cps[k]) == Some(glyphs[k])
    ensures LengthOf(glyphs, Places(|glyphs|)[..n]) == ArenaBytes(style, cps[..n])
  {
    if n > 0 {
      ArenaUpTo(style, cps, glyphs, n - 1);
      assert Places(|glyphs|)[..n][..n - 1] == Places(|glyphs|)[..n - 1] && cps[..n][..n - 1] == cps[..n - 1];
    }
  }

  /** Spells the intervals out. */
  method Enumerate(ivs: seq<EpdUnicodeInterval>, ghost resident: seq<nat>) returns (cps: seq<nat>)
    requires RunsOf(ivs, resident)
    ensures cps == resident
  {
    cps := [];
    var iv: nat := 0;
    while iv < |ivs|
      invariant iv <= |ivs| && cps == resident[..if iv == 0 then 0 else RunEnd(ivs[iv - 1])]
    {
      assert Run(ivs[iv], resident) && Follows(ivs, iv);
      var cp: nat := ivs[iv].first;
      while cp <= ivs[iv].last
        invariant ivs[iv].first <= cp <= ivs[iv].last + 1 && cps == resident[..ivs[iv].offset + (cp - ivs[iv].first)]
      {
        assert resident[ivs[iv].offset + (cp - ivs[iv].first)] == cp;
        cps := cps + [cp];
        cp := cp + 1;
      }
      iv := iv + 1;
    }
  }

  /** How often a number can be halved before it is zero. */
  function Halvings(n: nat): nat {
    if n == 0 then 0 else 1 + Halvings(n / 2)
  }

  datatype Outcome = Loaded(missed: int) | Failed(missed: int) | Reserved

  class StyleMini {
    const card: Device
    const style: StyleFile
    const kern: MiniKern.StyleKern
    var miniIntervals: seq<EpdUnicodeInterval>
    var miniGlyphs: seq<EpdGlyph>
    /** The arena; its length is its capacity. */
    var miniBitmap: Data
    var miniBitmapUsed: nat
    var miniMetadataOnly: bool
    var miniKernBuilt: bool
    /** Whether the font draws from the page's tables rather than from the stub. */
    var served: bool
    /** The codepoints the tables hold, and those the kern table was built for. */
    ghost var resident: seq<nat>
    ghost var kerned: seq<nat>
    /** How often a heap heuristic had retained data given back. */
    ghost var reliefs: nat

    ghost predicate Valid()
      reads this, kern
    {
      && Ascending(style.intervals) && kern.Valid() && kern.card == card
      && PageOk(style, resident, miniIntervals, miniGlyphs, miniBitmap, miniMetadataOnly)
      && (served <==> resident != [])
      && (resident != [] && miniKernBuilt ==>
            MiniKern.Refines(kern.mini, kern.file, kerned) && forall k :: 0 <= k < |resident| ==> resident[k] in kerned)
    }

    constructor (card: Device, style: StyleFile, kern: MiniKern.StyleKern)
      requires Ascending(style.intervals) && kern.Valid() && kern.card == card
      ensures Valid() && this.card == card && this.style == style && this.kern == kern && resident == []
    {
      this.card, this.style, this.kern, reliefs := card, style, kern, 0;
      miniIntervals, miniGlyphs, miniBitmap, miniBitmapUsed := [], [], [], 0;
      miniMetadataOnly, miniKernBuilt, served, resident, kerned := false, false, false, [], [];
    }

    // --- What the page draws ---

    /** A resident codepoint is found in the page's intervals, with its file entry and, on a full page, its bitmap. */
    method GetGlyph(cp: nat) returns (glyph: Option<EpdGlyph>, bitmap: Data)
      requires Valid()
      ensures glyph.Some? <==> cp in resident
      ensures cp in resident ==> FileEntry(style, cp).Some?
      ensures cp in resident ==> glyph.value.(dataOffset := 0) == FileEntry(style, cp).value.(dataOffset := 0)
      ensures cp in resident && !miniMetadataOnly ==> bitmap == BitmapOf(style, cp)
    {
      bitmap := [];
      RunsLookup(miniIntervals, resident, cp);
      var i := FindByUpperBound(miniIntervals, cp);
      if i.None? { return None, bitmap; }
      assert EntryOk(style, resident[i.value], miniGlyphs[i.value], miniBitmap, miniMetadataOnly);
      glyph := Some(miniGlyphs[i.value]);
      if !miniMetadataOnly {
        bitmap := miniBitmap[glyph.value.dataOffset..glyph.value.dataOffset + glyph.value.dataLength];
      }
    }

    /** While the kern table stands, two resident codepoints kern as in the font's whole table. */
    lemma {:induction false} ResidentKerns(a: nat, b: nat)
      requires Valid() && miniKernBuilt && a in resident && b in resident
      ensures Kerning.KernOf(kern.mini, a, b) == Kerning.KernOf(MiniKern.FullTable(kern.file), a, b)
    {
      assert resident != [] && a in kerned && b in kerned;
    }

    // --- Letting go ---

    method FreeMini()
      requires Ascending(style.intervals) && kern.Valid() && kern.card == card
      modifies this, kern`mini
      ensures Valid() && resident == [] && miniBitmap == [] && miniBitmapUsed == 0 && reliefs == old(reliefs)
      ensures kern.mini == MiniKern.NO_KERN
    {
      miniIntervals, miniGlyphs, miniBitmap, miniBitmapUsed := [], [], [], 0;
      kern.Free();
      miniKernBuilt, served, resident := false, false, [];
    }

    /** The font falls back to the stub until the rebuild completes; the buffers are kept. */
    method StartRebuild()
      requires Valid()
      modifies this`miniIntervals, this`miniGlyphs, this`served, this`resident, kern`mini
      ensures Valid() && resident == [] && kern.mini == MiniKern.NO_KERN
    {
      miniIntervals, miniGlyphs, served, resident := [], [], false, [];
      kern.Free();
    }

    // --- The subset check ---

    /** Whether the resident page serves the request as it is. */
    method SubsetHit(request: seq<nat>) returns (covered: bool, missed: nat)
      requires Valid()
      ensures covered <==> Serves(style, resident, request)
      ensures covered ==> missed == Missing(style, request)
    {
      missed := 0;
      var i: nat := 0;
      while i < |request|
        invariant i <= |request| && missed == Missing(style, request[..i]) && Serves(style, resident, request[..i])
      {
        MissingNext(style, request, i);
        var inMini := InMini(miniIntervals, resident, request[i]);
        if inMini {
          ResidentCovered(style, resident, request[i]);
        } else {
          var index := FindGlyphIndex(style.intervals, request[i]);
          if index.Some? { return false, missed; }
          missed := missed + 1;
        }
        assert Serves(style, resident, request[..i + 1]) by {
          assert request[..i + 1] == request[..i] + [request[i]];
        }
        i := i + 1;
      }
      assert request[..i] == request;
      covered := true;
    }

    /** A request that wants kerning builds it for every resident codepoint, or just for itself without memory. */
    method TopUpKern(request: seq<nat>)
      requires Valid() && Ascends(request) && resident != []
      modifies this`miniKernBuilt, this`kerned, kern, card`faults
      ensures Valid() && card.faults >= old(card.faults) && (card.faults == old(card.faults) ==> miniKernBuilt)
    {
      var ligaturesOk := card.Try();
      if !ligaturesOk { return; }
      var memory := card.Try();
      if memory {
        var cps := Enumerate(miniIntervals, resident);
        kerned := resident;
        miniKernBuilt := kern.Build(cps);
      } else {
        var built := kern.Build(request);
        miniKernBuilt := false;
      }
    }

    // --- Choosing what to load ---

    /** Retained data may be given up when they were underused or when memory is short. */
    method MaybeRelease(accumulate: bool)
      requires Valid()
      modifies this, kern`mini
      ensures Valid() && reliefs >= old(reliefs)
      ensures reliefs == old(reliefs) ==> resident == old(resident) && miniMetadataOnly == old(miniMetadataOnly)
      ensures resident != [] ==>
        miniBitmap == old(miniBitmap) && resident == old(resident) && miniBitmapUsed == old(miniBitmapUsed)
      ensures old(resident) == [] && old(miniBitmapUsed) == 0 ==> miniBitmap == old(miniBitmap) && miniBitmapUsed == 0
    {
      var underused, tight := *, *;
      if underused && |miniBitmap| > 0 && miniBitmapUsed > 0 {
        FreeMini();
        reliefs := reliefs + 1;
      }
      if tight && accumulate && |miniGlyphs| > 0 && |miniIntervals| > 0 {
        FreeMini();
        reliefs := reliefs + 1;
      }
    }

    /** The request, joined with what is resident if the two fit a page; a full page stays full. */
    method ChooseCodepoints(request: seq<nat>, metadataOnly: bool, accumulate: bool)
      returns (cps: seq<nat>, metaOnly: bool)
      requires Valid() && Ascends(request) && Words(request) && |request| <= MAX_PAGE_GLYPHS
      modifies card`faults
      ensures card.faults >= old(card.faults)
      ensures Ascends(cps) && Words(cps) && |request| <= |cps| <= MAX_PAGE_GLYPHS
      ensures Missing(style, cps) == Missing(style, request)
      ensures forall i :: 0 <= i < |request| ==> request[i] in cps
      ensures (cps == request && metaOnly == metadataOnly) || Joined(request, metadataOnly, cps, metaOnly)
      ensures accumulate && resident != [] && |Union(resident, request)| <= MAX_PAGE_GLYPHS
              && card.faults == old(card.faults) ==>
        Joined(request, metadataOnly, cps, metaOnly)
    {
      cps, metaOnly := request, metadataOnly;
      if accumulate && |miniGlyphs| > 0 && |miniIntervals| > 0 {
        var memory := card.Try();
        if !memory { return; }
        var merged := MergeUnion(miniIntervals, resident, request);
        if |merged| <= MAX_PAGE_GLYPHS {
          UnionOk(style, resident, request);
          cps, metaOnly := merged, metadataOnly && miniMetadataOnly;
        }
      }
    }

    /** Everything resident is loaded again with the request, and with its bitmaps if it had them. */
    ghost predicate Joined(request: seq<nat>, metadataOnly: bool, cps: seq<nat>, metaOnly: bool)
      reads this
    {
      resident != [] && cps == Union(resident, request) && metaOnly == (metadataOnly && miniMetadataOnly)
    }

    method Cover(cps: seq<nat>) returns (covered: seq<nat>)
      requires Ascending(style.intervals)
      ensures covered == CoveredOf(style, cps)
    {
      covered := [];
      var i: nat := 0;
      while i < |cps|
        invariant i <= |cps| && covered == CoveredOf(style, cps[..i])
      {
        assert cps[..i + 1][..i] == cps[..i];
        var index := FindGlyphIndex(style.intervals, cps[i]);
        if index.Some? {
          covered := covered + [cps[i]];
        }
        i := i + 1;
      }
      assert cps[..i] == cps;
    }

    // --- Loading ---

    /** Builds the kern table for the codepoints of a page, if it is asked for. */
    method BuildKern(cps: seq<nat>, wanted: bool)
      requires kern.Valid() && kern.card == card && Ascends(cps)
      modifies this`miniKernBuilt, this`kerned, kern, card`faults
      ensures kern.Valid() && kerned == cps && card.faults >= old(card.faults)
      ensures miniKernBuilt ==> MiniKern.Refines(kern.mini, kern.file, cps)
      ensures wanted && card.faults == old(card.faults) ==> miniKernBuilt
    {
      miniKernBuilt, kerned := false, cps;
      if wanted {
        var ligaturesOk := card.Try();
        if ligaturesOk {
          miniKernBuilt := kern.Build(cps);
        }
      }
    }

    /** The finished page replaces the stub. */
    method Install(cps: seq<nat>, covered: seq<nat>, ivs: seq<EpdUnicodeInterval>, glyphs: seq<EpdGlyph>,
                   metadataOnly: bool, loadKernLig: bool)
      requires kern.Valid() && kern.card == card && Ascending(style.intervals) && Ascends(cps)
      requires covered == CoveredOf(style, cps) && covered != []
      requires PageOk(style, covered, ivs, glyphs, miniBitmap, metadataOnly)
      modifies this`miniIntervals, this`miniGlyphs, this`miniMetadataOnly, this`miniKernBuilt, this`served,
               this`resident, this`kerned, kern, card`faults
      ensures Valid() && resident == covered && miniMetadataOnly == metadataOnly && card.faults >= old(card.faults)
      ensures !metadataOnly && loadKernLig && card.faults == old(card.faults) ==> miniKernBuilt
    {
      BuildKern(cps, !metadataOnly && loadKernLig);
      forall k | 0 <= k < |covered| ensures covered[k] in cps {
        CoveredHas(style, cps, covered[k]);
      }
      miniIntervals, miniGlyphs, miniMetadataOnly, served, resident := ivs, glyphs, metadataOnly, true, covered;
    }

    /** Grows the arena if it is too small; when the largest free block could not hold it, everything is given up
        first so that it can be reserved before the rest is read again. */
    method GrowArena(total: nat) returns (outcome: Outcome)
      requires Valid() && resident == []
      modifies this, kern`mini, card`faults
      ensures Valid() && resident == [] && card.faults >= old(card.faults) && reliefs == old(reliefs)
      ensures outcome.Loaded? ==> |miniBitmap| >= total
      ensures outcome.Failed? ==> outcome.missed == PREWARM_ARENA_TOO_LARGE && card.faults > old(card.faults)
      ensures outcome.Reserved? ==> |miniBitmap| == total > |old(miniBitmap)| && miniBitmapUsed == 0
    {
      if total > |miniBitmap| {
        miniBitmap := [];
        var tight := *;
        if tight {
          FreeMini();
          var reserved := card.Try();
          if !reserved { return Failed(PREWARM_ARENA_TOO_LARGE); }
          miniBitmap := seq(total, _ => 0);
          return Reserved;
        }
        var memory := card.Try();
        if !memory {
          FreeMini();
          return Failed(PREWARM_ARENA_TOO_LARGE);
        }
        miniBitmap := seq(total, _ => 0);
      }
      outcome := Loaded(0);
    }

    /** Reads the glyphs of a page, and for a full one their bitmaps. */
    method LoadPage(cps: seq<nat>, metadataOnly: bool, loadKernLig: bool) returns (outcome: Outcome)
      requires Valid() && Ascends(cps) && Words(cps) && |cps| <= MAX_PAGE_GLYPHS
      modifies this, kern, card`faults
      ensures Valid() && card.faults >= old(card.faults) && reliefs == old(reliefs)
      ensures outcome.Loaded? ==> outcome.missed == Missing(style, cps) && resident == CoveredOf(style, cps)
      ensures outcome.Loaded? ==> resident == [] || miniMetadataOnly == metadataOnly
      ensures outcome.Loaded? && resident != [] && !metadataOnly && loadKernLig && card.faults == old(card.faults) ==>
        miniKernBuilt
      ensures outcome.Failed? ==> card.faults > old(card.faults) || (outcome.missed == |cps| && Truncated(style, cps))
      ensures outcome.Failed? ==> outcome.missed == |cps| || outcome.missed == PREWARM_ARENA_TOO_LARGE
      ensures outcome.Reserved? ==> resident == [] && miniBitmapUsed == 0
      ensures outcome.Reserved? ==> |miniBitmap| == ArenaBytes(style, CoveredOf(style, cps)) > |old(miniBitmap)|
    {
      var mappings := card.Try();
      if !mappings { return Failed(|cps|); }
      var covered := Cover(cps);
      var missed := |cps| - |covered|;
      if |covered| == 0 {
        FreeMini();
        return Loaded(missed);
      }
      CoveredOk(style, cps);
      StartRebuild();
      outcome := LoadCovered(cps, covered, metadataOnly, loadKernLig);
      if outcome.Loaded? {
        outcome := Loaded(missed);
      }
    }

    method LoadCovered(cps: seq<nat>, covered: seq<nat>, metadataOnly: bool, loadKernLig: bool)
      returns (outcome: Outcome)
      requires Valid() && resident == [] && Ascends(cps) && covered == CoveredOf(style, cps) && covered != []
      requires Ascends(covered) && Words(covered) && AllCovered(style, covered) && |covered| <= MAX_PAGE_GLYPHS
      modifies this, kern, card`faults
      ensures Valid() && card.faults >= old(card.faults) && reliefs == old(reliefs)
      ensures outcome.Loaded? ==> resident == covered && miniMetadataOnly == metadataOnly
      ensures outcome.Loaded? && !metadataOnly && loadKernLig && card.faults == old(card.faults) ==> miniKernBuilt
      ensures outcome.Failed? ==> card.faults > old(card.faults) || (outcome.missed == |cps| && Truncated(style, cps))
      ensures outcome.Failed? ==> outcome.missed == |cps| || outcome.missed == PREWARM_ARENA_TOO_LARGE
      ensures outcome.Reserved? ==>
        resident == [] && miniBitmapUsed == 0 && |miniBitmap| == ArenaBytes(style, covered) > |old(miniBitmap)|
    {
      var memory := card.Try();
      if !memory { return Failed(|cps|); }
      var ivs := BuildIntervals(covered);
      var glyphs, read := ReadRecords(covered);
      if !read {
        CoveredTruncated(style, cps);
        FreeMini();
        return Failed(|cps|);
      }
      if metadataOnly {
        Install(cps, covered, ivs, glyphs, true, loadKernLig);
        return Loaded(0);
      }
      outcome := LoadBitmaps(cps, covered, ivs, glyphs, loadKernLig);
    }

    /** Allocates the glyphs and their reading order, and reads them from the file. */
    method ReadRecords(covered: seq<nat>) returns (glyphs: seq<EpdGlyph>, ok: bool)
      requires AllCovered(style, covered) && Ascending(style.intervals)
      modifies card`faults
      ensures card.faults >= old(card.faults) && (!ok ==> card.faults > old(card.faults) || Truncated(style, covered))
      ensures ok ==> |glyphs| == |covered| && forall k :: 0 <= k < |covered| ==>
        FileEntry(style, covered[k]) == Some(glyphs[k])
    {
      var glyphsOk := card.Try();
      if !glyphsOk { return [], false; }
      var orderOk := card.Try();
      if !orderOk { return [], false; }
      var opens := card.Try();
      if !opens { return [], false; }
      glyphs, ok := ReadGlyphs(card, style, covered);
    }

    method LoadBitmaps(cps: seq<nat>, covered: seq<nat>, ivs: seq<EpdUnicodeInterval>, read: seq<EpdGlyph>,
                       loadKernLig: bool)
      returns (outcome: Outcome)
      requires Valid() && resident == [] && Ascends(cps) && covered == CoveredOf(style, cps) && covered != []
      requires Ascends(covered) && Words(covered) && AllCovered(style, covered) && |covered| <= MAX_PAGE_GLYPHS
      requires RunsOf(ivs, covered) && |read| == |covered|
      requires forall k :: 0 <= k < |covered| ==> FileEntry(style, covered[k]) == Some(read[k])
      modifies this, kern, card`faults
      ensures Valid() && card.faults >= old(card.faults) && reliefs == old(reliefs)
      ensures outcome.Loaded? ==>
        resident == covered && !miniMetadataOnly && miniBitmapUsed == ArenaBytes(style, covered)
      ensures outcome.Loaded? && loadKernLig && card.faults == old(card.faults) ==> miniKernBuilt
      ensures outcome.Failed? ==> card.faults > old(card.faults)
      ensures outcome.Failed? ==> outcome.missed == |cps| || outcome.missed == PREWARM_ARENA_TOO_LARGE
      ensures outcome.Reserved? ==>
        resident == [] && miniBitmapUsed == 0 && |miniBitmap| == ArenaBytes(style, covered) > |old(miniBitmap)|
    {
      var total := TotalOf(read);
      ArenaIs(style, covered, read);
      outcome := GrowArena(total);
      if !outcome.Loaded? { return; }
      miniBitmapUsed := total;
      var ok := FillArena(cps, covered, ivs, read, loadKernLig);
      if !ok {
        outcome := Failed(|cps|);
      }
    }

    /** Reads the bitmaps into the arena and installs the page. */
    method FillArena(cps: seq<nat>, covered: seq<nat>, ivs: seq<EpdUnicodeInterval>, read: seq<EpdGlyph>,
                     loadKernLig: bool)
      returns (ok: bool)
      requires kern.Valid() && kern.card == card && Ascending(style.intervals) && Ascends(cps)
      requires covered == CoveredOf(style, cps) && covered != []
      requires Ascends(covered) && Words(covered) && AllCovered(style, covered) && |covered| <= MAX_PAGE_GLYPHS
      requires RunsOf(ivs, covered) && |read| == |covered|
      requires forall k :: 0 <= k < |covered| ==> FileEntry(style, covered[k]) == Some(read[k])
      requires LengthOf(read, Places(|read|)) <= |miniBitmap|
      modifies this, kern, card`faults
      ensures Valid() && card.faults >= old(card.faults) && reliefs == old(reliefs)
      ensures if ok then resident == covered && !miniMetadataOnly && miniBitmapUsed == old(miniBitmapUsed)
              else card.faults > old(card.faults)
      ensures ok && loadKernLig && card.faults == old(card.faults) ==> miniKernBuilt
    {
      var glyphs, bitmap;
      glyphs, bitmap, ok := ReadArena(covered, ivs, read);
      if !ok {
        FreeMini();
        return;
      }
      InstallWhole(cps, covered, ivs, glyphs, bitmap, loadKernLig);
    }

    /** Takes over the arena with the page's bitmaps, and the page. */
    method InstallWhole(cps: seq<nat>, covered: seq<nat>, ivs: seq<EpdUnicodeInterval>, glyphs: seq<EpdGlyph>,
                        bitmap: Data, loadKernLig: bool)
      requires kern.Valid() && kern.card == card && Ascending(style.intervals) && Ascends(cps)
      requires covered == CoveredOf(style, cps) && covered != []
      requires PageOk(style, covered, ivs, glyphs, bitmap, false)
      modifies this, kern, card`faults
      ensures Valid() && resident == covered && !miniMetadataOnly && card.faults >= old(card.faults)
      ensures miniBitmapUsed == old(miniBitmapUsed) && reliefs == old(reliefs)
      ensures loadKernLig && card.faults == old(card.faults) ==> miniKernBuilt
    {
      miniBitmap := bitmap;
      Install(cps, covered, ivs, glyphs, false, loadKernLig);
    }

    /** Reads the bitmaps in an order there has to be memory for. */
    method ReadArena(covered: seq<nat>, ghost ivs: seq<EpdUnicodeInterval>, read: seq<EpdGlyph>)
      returns (glyphs: seq<EpdGlyph>, bitmap: Data, ok: bool)
      requires Ascends(covered) && Words(covered) && AllCovered(style, covered) && |covered| <= MAX_PAGE_GLYPHS
      requires RunsOf(ivs, covered) && |read| == |covered|
      requires forall k :: 0 <= k < |covered| ==> FileEntry(style, covered[k]) == Some(read[k])
      requires LengthOf(read, Places(|read|)) <= |miniBitmap|
      modifies card`faults
      ensures card.faults >= old(card.faults) && (!ok ==> card.faults > old(card.faults))
      ensures ok ==> |bitmap| == |miniBitmap| && PageOk(style, covered, ivs, glyphs, bitmap, false)
    {
      var orderOk := card.Try();
      if !orderOk { return [], [], false; }
      glyphs, bitmap, ok := ReadBitmaps(card, style, covered, read, miniBitmap);
      if ok {
        PageWhole(style, covered, ivs, glyphs, bitmap);
      }
    }

    method TotalOf(read: seq<EpdGlyph>) returns (total: nat)
      ensures total == LengthOf(read, Places(|read|))
    {
      total := 0;
      var i: nat := 0;
      while i < |read|
        invariant i <= |read| && total == LengthOf(read, Places(|read|)[..i])
      {
        assert Places(|read|)[..i + 1][..i] == Places(|read|)[..i];
        total := total + read[i].dataLength;
        i := i + 1;
      }
      assert Places(|read|)[..i] == Places(|read|);
    }

    // --- A prewarm ---

    /** 0 once nothing is resident and the arena is large enough for the request. */
    ghost function Retries(request: seq<nat>): nat
      reads this
    {
      var enough := |miniBitmap| >= ArenaBytes(style, CoveredOf(style, request));
      if resident == [] && miniBitmapUsed == 0 && enough then 0 else 1
    }

    /** What a page that serves the request as it is keeps. */
    twostate predicate PageKept()
      reads this
    {
      && resident == old(resident) && miniIntervals == old(miniIntervals) && miniGlyphs == old(miniGlyphs)
      && miniBitmap == old(miniBitmap) && miniMetadataOnly == old(miniMetadataOnly)
    }

    /** Makes the requested codepoints resident; returns how many the font does not cover. The arena is reserved, and
        the prewarm started over, once at most. Without a failure of memory or card, `ok` is false only when the file
        lacks the record of a codepoint it says it covers. */
    method PrewarmStyle(request: seq<nat>, metadataOnly: bool, loadKernLig: bool, accumulate: bool)
      returns (missed: int, ghost ok: bool)
      requires Valid() && Ascends(request) && Words(request) && |request| <= MAX_PAGE_GLYPHS
      modifies this, kern, card`faults
      ensures Valid() && card.faults >= old(card.faults) && reliefs >= old(reliefs)
      ensures !ok ==> card.faults > old(card.faults) || (missed >= 0 && Truncated(style, request))
      ensures ok ==> missed == Missing(style, request) && Serves(style, resident, request)
      ensures ok && !metadataOnly && resident != [] ==> !miniMetadataOnly
      ensures ok && !metadataOnly && loadKernLig && resident != [] && card.faults == old(card.faults) ==> miniKernBuilt
      ensures old(ServedAsIs(request, metadataOnly)) ==> ok && PageKept()
      ensures ok && accumulate && |Union(old(resident), request)| <= MAX_PAGE_GLYPHS
              && card.faults == old(card.faults) && reliefs == old(reliefs) ==>
        StillThere(old(resident), old(miniMetadataOnly))
      ensures !ok ==> missed == PREWARM_ARENA_TOO_LARGE || |request| <= missed <= MAX_PAGE_GLYPHS
      decreases Retries(request)
    {
      if |miniGlyphs| > 0 && !(miniMetadataOnly && !metadataOnly) {
        var covered;
        covered, missed := SubsetHit(request);
        if covered {
          if !metadataOnly && loadKernLig && !miniKernBuilt {
            TopUpKern(request);
          }
          return missed, true;
        }
      }
      MaybeRelease(accumulate);
      missed, ok := Rebuild(request, metadataOnly, loadKernLig, accumulate);
    }

    /** Whether the resident page serves a request without a rebuild. */
    ghost predicate ServedAsIs(request: seq<nat>, metadataOnly: bool)
      reads this
    {
      resident != [] && !(miniMetadataOnly && !metadataOnly) && Serves(style, resident, request)
    }

    /** Codepoints that were resident still are, and still with their bitmaps. */
    ghost predicate StillThere(were: seq<nat>, metadataOnly: bool)
      reads this
    {
      (forall k :: 0 <= k < |were| ==> were[k] in resident) && (were != [] && !metadataOnly ==> !miniMetadataOnly)
    }

    /** The part of a prewarm behind the subset check. */
    method Rebuild(request: seq<nat>, metadataOnly: bool, loadKernLig: bool, accumulate: bool)
      returns (missed: int, ghost ok: bool)
      requires Valid() && Ascends(request) && Words(request) && |request| <= MAX_PAGE_GLYPHS
      modifies this, kern, card`faults
      ensures Valid() && card.faults >= old(card.faults) && reliefs >= old(reliefs)
      ensures !ok ==> card.faults > old(card.faults) || (missed >= 0 && Truncated(style, request))
      ensures ok ==> missed == Missing(style, request) && Serves(style, resident, request)
      ensures ok && !metadataOnly && resident != [] ==> !miniMetadataOnly
      ensures ok && !metadataOnly && loadKernLig && resident != [] && card.faults == old(card.faults) ==> miniKernBuilt
      ensures ok && accumulate && |Union(old(resident), request)| <= MAX_PAGE_GLYPHS
              && card.faults == old(card.faults) ==>
        StillThere(old(resident), old(miniMetadataOnly))
      ensures !ok ==> missed == PREWARM_ARENA_TOO_LARGE || |request| <= missed <= MAX_PAGE_GLYPHS
      decreases Retries(request), 0
    {
      ghost var were := resident;
      var cps, metaOnly := ChooseCodepoints(request, metadataOnly, accumulate);
      RequestTruncated(style, resident, miniIntervals, miniGlyphs, miniBitmap, miniMetadataOnly, request, cps);
      var outcome := LoadPage(cps, metaOnly, loadKernLig);
      if outcome.Reserved? {
        missed, ok := PrewarmStyle(cps, metaOnly, loadKernLig, accumulate);
      } else {
        missed, ok := outcome.missed, outcome.Loaded?;
        ServedOk(style, cps);
      }
      if ok {
        ServesWithin(style, resident, cps, request);
        ServesJoined(style, resident, were, request);
      }
    }

    /** SdCardFont::prewarm's retries: when the arena does not fit, ever smaller parts of the request are tried, from as
        many glyphs on as the free memory is estimated to hold. Each refusal of a part is a fault. */
    method PrewarmOrLess(request: seq<nat>, metadataOnly: bool, loadKernLig: bool, accumulate: bool, estimate: nat)
      returns (missed: int, ghost ok: bool, ghost fit: nat)
      requires Valid() && Ascends(request) && Words(request) && |request| <= MAX_PAGE_GLYPHS
      modifies this, kern, card`faults
      ensures Valid() && missed >= 0 && fit <= |request| && card.faults >= old(card.faults)
      ensures fit < |request| ==>
        var first := if estimate > |request| then |request| else estimate;
        fit <= first && card.faults > old(card.faults) + Halvings(first) - Halvings(fit) >= old(card.faults)
      ensures !ok ==> card.faults > old(card.faults) || Truncated(style, request)
      ensures ok ==>
        missed == Missing(style, request[..fit]) + (|request| - fit) && Serves(style, resident, request[..fit])
    {
      missed, ok := PrewarmStyle(request, metadataOnly, loadKernLig, accumulate);
      fit := |request|;
      assert request[..fit] == request;
      if missed == PREWARM_ARENA_TOO_LARGE {
        var part: nat := if estimate > |request| then |request| else estimate;
        ghost var first := part;
        while part > 0
          invariant part <= first <= |request| && Valid() && (missed == PREWARM_ARENA_TOO_LARGE ==> !ok)
          invariant missed == PREWARM_ARENA_TOO_LARGE && Halvings(part) <= Halvings(first)
          invariant card.faults > old(card.faults) + Halvings(first) - Halvings(part)
        {
          missed, ok := PrewarmStyle(request[..part], metadataOnly, loadKernLig, accumulate);
          if missed != PREWARM_ARENA_TOO_LARGE { break; }
          part := part / 2;
        }
        fit := part;
        if missed == PREWARM_ARENA_TOO_LARGE {
          missed := |request|;
        } else {
          missed := missed + (|request| - part);
        }
      }
    }
  }

  /** Whatever is resident could be read, so the record that is missing is one of the request. */
  lemma {:induction false} RequestTruncated(style: StyleFile, resident: seq<nat>, ivs: seq<EpdUnicodeInterval>,
                                            glyphs: seq<EpdGlyph>, bitmap: Data, metadataOnly: bool,
                                            request: seq<nat>, cps: seq<nat>)
    requires PageOk(style, resident, ivs, glyphs, bitmap, metadataOnly)
    requires (cps == request || cps == Union(resident, request))
    ensures Truncated(style, cps) ==> Truncated(style, request)
  {
    forall k | 0 <= k < |resident| ensures !Missed(style, resident[k]) {
      assert EntryOk(style, resident[k], glyphs[k], bitmap, metadataOnly);
    }
    if Truncated(style, cps) && cps != request {
      var i :| 0 <= i < |cps| && Missed(style, cps[i]);
      UnionHas(resident, request, cps[i]);
      var j :| 0 <= j < |request| && request[j] == cps[i];
    }
  }

  lemma {:induction false} PageWhole(style: StyleFile, covered: seq<nat>, ivs: seq<EpdUnicodeInterval>,
                                     glyphs: seq<EpdGlyph>, bitmap: Data)
    requires Ascends(covered) && Words(covered) && AllCovered(style, covered) && |covered| <= MAX_PAGE_GLYPHS
    requires RunsOf(ivs, covered) && |glyphs| == |covered|
    requires forall k :: 0 <= k < |covered| ==> Rewritten(style, covered[k], glyphs[k], bitmap, |bitmap|)
    ensures PageOk(style, covered, ivs, glyphs, bitmap, false)
  {
    assert forall k :: 0 <= k < |covered| ==> EntryOk(style, covered[k], glyphs[k], bitmap, false);
  }

  lemma {:induction false} CoveredTruncated(style: StyleFile, cps: seq<nat>)
    ensures Truncated(style, CoveredOf(style, cps)) ==> Truncated(style, cps)
  {
    var covered := CoveredOf(style, cps);
    if Truncated(style, covered) {
      var i :| 0 <= i < |covered| && Missed(style, covered[i]);
      CoveredHas(style, cps, covered[i]);
      var j :| 0 <= j < |cps| && cps[j] == covered[i];
    }
  }

  lemma {:induction false} MissingNext(style: StyleFile, cps: seq<nat>, i: nat)
    requires i < |cps|
    ensures Missing(style, cps[..i + 1]) == Missing(style, cps[..i]) + if GlyphIndex(style, cps[i]).Some? then 0 else 1
  {
    assert cps[..i + 1][..i] == cps[..i];
  }

  lemma {:induction false} ResidentCovered(style: StyleFile, resident: seq<nat>, cp: nat)
    requires AllCovered(style, resident) && cp in resident
    ensures GlyphIndex(style, cp).Some?
  {
  }

  lemma {:induction false} UnionOk(style: StyleFile, resident: seq<nat>, request: seq<nat>)
    requires Ascends(resident) && Ascends(request) && Words(resident) && Words(request) && AllCovered(style, resident)
    ensures var all := Union(resident, request);
            && Ascends(all) && Words(all) && |request| <= |all| && Missing(style, all) == Missing(style, request)
            && forall i :: 0 <= i < |request| ==> request[i] in all
  {
    var all := Union(resident, request);
    UnionAscends(resident, request);
    UnionMissing(style, resident, request);
    forall i | 0 <= i < |all| ensures all[i] < 0x1_0000_0000 {
      UnionHas(resident, request, all[i]);
    }
    forall i | 0 <= i < |request| ensures request[i] in all {
      UnionHas(resident, request, request[i]);
    }
    UnionLength(resident, request);
  }

  lemma {:induction false} UnionLength(a: seq<nat>, b: seq<nat>)
    ensures |Union(a, b)| >= |b|
    decreases |a| + |b|
  {
    if a != [] && b != [] {
      if a[0] < b[0] {
        UnionLength(a[1..], b);
      } else if a[0] == b[0] {
        UnionLength(a[1..], b[1..]);
      } else {
        UnionLength(a, b[1..]);
      }
    }
  }

  lemma {:induction false} CoveredOk(style: StyleFile, cps: seq<nat>)
    requires Ascends(cps) && Words(cps)
    ensures var covered := CoveredOf(style, cps); Ascends(covered) && Words(covered) && AllCovered(style, covered)
  {
    var covered := CoveredOf(style, cps);
    CoveredAscends(style, cps);
    forall k | 0 <= k < |covered| ensures covered[k] < 0x1_0000_0000 && GlyphIndex(style, covered[k]).Some? {
      CoveredHas(style, cps, covered[k]);
    }
  }

  /** What was loaded for a set serves it. */
  lemma {:induction false} ServedOk(style: StyleFile, cps: seq<nat>)
    ensures Serves(style, CoveredOf(style, cps), cps)
  {
    forall i | 0 <= i < |cps| && GlyphIndex(style, cps[i]).Some? ensures cps[i] in CoveredOf(style, cps) {
      CoveredHas(style, cps, cps[i]);
    }
  }

  /** What serves a set serves each request within it. */
  lemma {:induction false} ServesWithin(style: StyleFile, resident: seq<nat>, cps: seq<nat>, request: seq<nat>)
    requires Serves(style, resident, cps) && forall i :: 0 <= i < |request| ==> request[i] in cps
    ensures Serves(style, resident, request)
  {
    forall i | 0 <= i < |request| && GlyphIndex(style, request[i]).Some? ensures request[i] in resident {
      var k :| 0 <= k < |cps| && cps[k] == request[i];
    }
  }

  lemma {:induction false} ServesJoined(style: StyleFile, resident: seq<nat>, were: seq<nat>, request: seq<nat>)
    requires AllCovered(style, were)
    ensures Serves(style, resident, Union(were, request)) ==> forall k :: 0 <= k < |were| ==> were[k] in resident
  {
    if Serves(style, resident, Union(were, request)) {
      forall k | 0 <= k < |were| ensures were[k] in resident {
        UnionHas(were, request, were[k]);
        var i :| 0 <= i < |Union(were, request)| && Union(were, request)[i] == were[k];
      }
    }
  }
}
