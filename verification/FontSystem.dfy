/** Loading, reusing and evicting fonts while the reader's face and the faces UI text falls back to stay put
    (lib/EpdFont/SdCardFontManager.cpp, src/SdCardFontSystem.cpp). */
module FontSystem {
  import opened Bytes
  import opened Card
  import opened FontIds
  import opened FontVariants

  predicate DistinctFonts(loaded: seq<LoadedFont>) {
    forall i, j :: 0 <= i < j < |loaded| ==> loaded[i].fontId != loaded[j].fontId
  }

  predicate DistinctVariants(variants: seq<CpfontVariant>) {
    forall i, j :: 0 <= i < j < |variants| ==> variants[i].fontId != variants[j].fontId
  }

  /** A font loaded behind the reader's. */
  predicate Behind(loaded: seq<LoadedFont>, id: FontId) {
    exists k :: 0 < k < |loaded| && loaded[k].fontId == id
  }

  /** The renderer knows exactly its own fonts and the loaded ones; the reader's comes first, at the current size, and
      the others are registered under the variant ids of their sizes. */
  ghost predicate ManagerOk(name: Data, pointSize: PointSize, loaded: seq<LoadedFont>, fontMap: set<FontId>,
                            builtin: set<FontId>) {
    && (name == [] <==> loaded == []) && DistinctFonts(loaded) && fontMap == builtin + Ids(loaded)
    && (forall k :: 0 <= k < |loaded| ==> loaded[k].fontId !in builtin && loaded[k].fontId != 0)
    && (loaded != [] ==> loaded[0].size == pointSize)
    && forall k :: 0 < k < |loaded| ==> loaded[k].fontId == VariantFontId(loaded[0].fontId, loaded[k].size)
  }

  /** The variants are loaded fonts within the cap, none of them the reader's or one that UI text falls back to. */
  ghost predicate VariantsOk(variants: seq<CpfontVariant>, loaded: seq<LoadedFont>, fallbacks: map<FontId, FontId>,
                             clock: nat) {
    && |variants| <= MAX_CPFONT_VARIANTS && DistinctVariants(variants)
    && (forall i :: 0 <= i < |variants| ==> Behind(loaded, variants[i].fontId) && variants[i].lastUse <= clock)
    && (forall i, r :: 0 <= i < |variants| && r in fallbacks ==> fallbacks[r] != variants[i].fontId)
    && forall r :: r in fallbacks ==> fallbacks[r] in Ids(loaded)
  }

  /** Everything loaded that was not a variant is still loaded. */
  ghost predicate Kept(before: seq<LoadedFont>, after: seq<LoadedFont>, variants: seq<CpfontVariant>) {
    forall f :: f in before && f.fontId !in VariantIds(variants) ==> f in after
  }

  /** The id a file is registered under. */
  function IdFor(file: FontFile, fontIdOverride: FontId, name: Data): FontId {
    if fontIdOverride != 0 then fontIdOverride else ComputeFontId(file.contentHash, name, file.pointSize)
  }

  /** The variant id of a size is that of a font of the renderer's own, or the reader's. */
  predicate Taken(builtin: set<FontId>, reader: FontId, pointSize: PointSize) {
    VariantFontId(reader, pointSize) in builtin || VariantFontId(reader, pointSize) == reader
  }

  /** The nearest file of the family is the only loaded font. */
  ghost predicate FamilyLoaded(files: seq<FontFile>, name: Data, pointSize: PointSize, loaded: seq<LoadedFont>) {
    exists f :: IsNearest(files, pointSize, REGULAR, f) && loaded == [LoadedFont(IdFor(f, 0, name), f.pointSize)]
  }

  ghost predicate FamilyTaken(files: seq<FontFile>, name: Data, pointSize: PointSize, builtin: set<FontId>) {
    exists f :: IsNearest(files, pointSize, REGULAR, f) && IdFor(f, 0, name) in builtin
  }

  ghost predicate HasNearestSize(files: seq<FontFile>, pointSize: PointSize, size: PointSize) {
    exists f :: IsNearest(files, pointSize, REGULAR, f) && f.pointSize == size
  }

  lemma {:induction false} BehindOthers(loaded: seq<LoadedFont>, k: nat, id: FontId)
    requires 0 < k < |loaded| && Behind(loaded, id) && id != loaded[k].fontId
    ensures Behind(Without(loaded, k), id)
  {
    var n :| 0 < n < |loaded| && loaded[n].fontId == id;
    assert Without(loaded, k)[if n < k then n else n - 1].fontId == id;
  }

  lemma {:induction false} IdsWithout(loaded: seq<LoadedFont>, k: nat)
    requires k < |loaded| && DistinctFonts(loaded)
    ensures Ids(Without(loaded, k)) == Ids(loaded) - {loaded[k].fontId}
  {
    var after := Without(loaded, k);
    forall f | f in after ensures f in loaded && f.fontId != loaded[k].fontId {
      var n :| 0 <= n < |after| && after[n] == f;
      assert f == loaded[if n < k then n else n + 1];
    }
    forall f | f in loaded && f.fontId != loaded[k].fontId ensures f in after {
      var n :| 0 <= n < |loaded| && loaded[n] == f;
      assert after[if n < k then n else n - 1] == f;
    }
  }

  /** Taking one font out behind the reader's. */
  lemma {:induction false} Unloaded(name: Data, pointSize: PointSize, loaded: seq<LoadedFont>, fontMap: set<FontId>,
                                    builtin: set<FontId>, k: nat)
    requires ManagerOk(name, pointSize, loaded, fontMap, builtin) && 0 < k < |loaded|
    ensures ManagerOk(name, pointSize, Without(loaded, k), fontMap - {loaded[k].fontId}, builtin)
    ensures Without(loaded, k)[0] == loaded[0]
  {
    IdsWithout(loaded, k);
    var after := Without(loaded, k);
    assert forall n :: 0 <= n < |after| ==> after[n] == loaded[if n < k then n else n + 1];
  }

  /** Evicting variant `v`, whose font is `loaded[k]`. */
  lemma {:induction false} Evicted(variants: seq<CpfontVariant>, loaded: seq<LoadedFont>,
                                   fallbacks: map<FontId, FontId>, clock: nat, v: nat, k: nat)
    requires VariantsOk(variants, loaded, fallbacks, clock) && DistinctFonts(loaded)
    requires v < |variants| && 0 < k < |loaded| && loaded[k].fontId == variants[v].fontId
    ensures VariantsOk(Without(variants, v), Without(loaded, k), fallbacks, clock)
    ensures VariantIds(Without(variants, v)) <= VariantIds(variants)
    ensures Kept(loaded, Without(loaded, k), variants)
  {
    var after, left := Without(variants, v), Without(loaded, k);
    IdsWithout(loaded, k);
    forall n | 0 <= n < |after|
      ensures after[n] == variants[if n < v then n else n + 1] && Behind(left, after[n].fontId)
    {
      BehindOthers(loaded, k, after[n].fontId);
    }
    forall f | f in loaded && f.fontId !in VariantIds(variants) ensures f in left {
      assert variants[v] in variants;
      var n :| 0 <= n < |loaded| && loaded[n] == f;
      assert left[if n < k then n else n - 1] == f;
    }
  }

  /** One more font behind the reader's. */
  lemma {:induction false} Added(variants: seq<CpfontVariant>, loaded: seq<LoadedFont>,
                                 fallbacks: map<FontId, FontId>, clock: nat, f: LoadedFont)
    requires VariantsOk(variants, loaded, fallbacks, clock)
    ensures VariantsOk(variants, loaded + [f], fallbacks, clock) && Ids(loaded + [f]) == Ids(loaded) + {f.fontId}
  {
    forall i | 0 <= i < |variants| ensures Behind(loaded + [f], variants[i].fontId) {
      assert Behind(loaded, variants[i].fontId);
      var k :| 0 < k < |loaded| && loaded[k].fontId == variants[i].fontId;
      assert (loaded + [f])[k] == loaded[k];
    }
  }

  /** The first file whose size has the variant id, or their number. */
  method FindSize(files: seq<FontFile>, readerFontId: FontId, fontId: FontId) returns (i: nat)
    ensures i <= |files| && forall n :: 0 <= n < i ==> VariantFontId(readerFontId, files[n].pointSize) != fontId
    ensures i < |files| ==> VariantFontId(readerFontId, files[i].pointSize) == fontId
  {
    i := 0;
    while i < |files|
      invariant i <= |files| && forall n :: 0 <= n < i ==> VariantFontId(readerFontId, files[n].pointSize) != fontId
    {
      var id := ComputeVariantFontId(readerFontId, files[i].pointSize);
      if id == fontId { return; }
      i := i + 1;
    }
  }

  class SdCardFontSystem {
    /** The renderer's own fonts, the sizes they come in, and the UI fonts that get fallbacks. */
    const card: Device
    const builtin: set<FontId>
    const builtinReaderFontVariant: (FontId, real) -> FontId
    const uiFontSizes: seq<UiFontSize>
    /** Whether a loaded font has codepoints that the UI fonts lack. */
    const coversFallbackScript: FontId -> bool

    var registry: map<Data, seq<FontFile>>
    /** The renderer: its registered fonts, and the font each UI font falls back to. */
    var fontMap: set<FontId>
    var fallbacks: map<FontId, FontId>
    /** The manager; an empty name when nothing is loaded. */
    var loadedFamilyName: Data
    var loadedPointSize: PointSize
    var loaded: seq<LoadedFont>
    var cpfontVariants: seq<CpfontVariant>
    var variantClock: nat

    ghost predicate Valid()
      reads this
    {
      && ManagerOk(loadedFamilyName, loadedPointSize, loaded, fontMap, builtin)
      && VariantsOk(cpfontVariants, loaded, fallbacks, variantClock)
      && FallbacksFit(loaded, uiFontSizes, fallbacks)
    }

    constructor (card: Device, builtin: set<FontId>, builtinReaderFontVariant: (FontId, real) -> FontId,
                 uiFontSizes: seq<UiFontSize>, coversFallbackScript: FontId -> bool, registry: map<Data, seq<FontFile>>)
      ensures Valid() && loaded == [] && cpfontVariants == [] && this.card == card && this.builtin == builtin
      ensures this.builtinReaderFontVariant == builtinReaderFontVariant && this.uiFontSizes == uiFontSizes
      ensures this.coversFallbackScript == coversFallbackScript && this.registry == registry
    {
      this.card, this.builtin, this.builtinReaderFontVariant := card, builtin, builtinReaderFontVariant;
      this.uiFontSizes, this.coversFallbackScript, this.registry := uiFontSizes, coversFallbackScript, registry;
      fontMap, fallbacks := builtin, map[];
      loadedFamilyName, loadedPointSize, loaded := [], 0, [];
      cpfontVariants, variantClock := [], 0;
    }

    // --- The manager ---

    /** Loads a file and registers it; fails without memory, on a bad file or when the id is taken. */
    method LoadFile(file: FontFile, fontIdOverride: FontId, name: Data) returns (fontId: FontId)
      modifies this`loaded, this`fontMap, card`faults
      ensures card.faults >= old(card.faults)
      ensures fontId == 0 ==> card.faults > old(card.faults) || IdFor(file, fontIdOverride, name) in fontMap
      ensures fontId == 0 ==> loaded == old(loaded) && fontMap == old(fontMap)
      ensures fontId != 0 ==> fontId !in old(fontMap) && fontMap == old(fontMap) + {fontId}
      ensures fontId != 0 ==> loaded == old(loaded) + [LoadedFont(fontId, file.pointSize)]
      ensures fontId != 0 ==> fontId == IdFor(file, fontIdOverride, name)
    {
      var loads := card.Try();
      if !loads { return 0; }
      fontId := fontIdOverride;
      if fontId == 0 {
        fontId := HashFontId(file.contentHash, name, file.pointSize);
      }
      if fontId in fontMap { return 0; }
      fontMap := fontMap + {fontId};
      loaded := loaded + [LoadedFont(fontId, file.pointSize)];
    }

    /** The loaded font of a size, or the reader's for 0; 0 if there is none. */
    method GetFontId(familyName: Data, pointSize: PointSize) returns (fontId: FontId)
      requires Valid()
      ensures familyName != loadedFamilyName || loaded == [] ==> fontId == 0
      ensures familyName == loadedFamilyName && loaded != [] && pointSize == 0 ==> fontId == loaded[0].fontId
      ensures fontId != 0 && pointSize != 0 ==>
        exists k :: 0 <= k < |loaded| && loaded[k] == LoadedFont(fontId, pointSize)
      ensures fontId == 0 && familyName == loadedFamilyName ==> forall k :: 0 <= k < |loaded| ==>
        loaded[k].size != pointSize
    {
      if familyName != loadedFamilyName || loaded == [] { return 0; }
      if pointSize == 0 { return loaded[0].fontId; }
      var k: nat := 0;
      while k < |loaded|
        invariant k <= |loaded| && forall n :: 0 <= n < k ==> loaded[n].size != pointSize
      {
        if loaded[k].size == pointSize { return loaded[k].fontId; }
        k := k + 1;
      }
      return 0;
    }

    method UnloadAll()
      modifies this`fontMap, this`fallbacks, this`loaded, this`loadedFamilyName, this`loadedPointSize
      requires Valid() && cpfontVariants == []
      ensures Valid() && loaded == [] && fallbacks == map[] && loadedFamilyName == []
    {
      fallbacks := map[];
      Unregister();
      loaded, loadedFamilyName, loadedPointSize := [], [], 0;
    }

    /** Takes the loaded fonts out of the renderer. */
    method Unregister()
      requires fontMap == builtin + Ids(loaded) && DistinctFonts(loaded)
      requires forall k :: 0 <= k < |loaded| ==> loaded[k].fontId !in builtin
      modifies this`fontMap
      ensures fontMap == builtin
    {
      var k: nat := 0;
      assert loaded[0..] == loaded;
      while k < |loaded|
        invariant k <= |loaded| && fontMap == builtin + Ids(loaded[k..])
      {
        RemovedId(loaded, k);
        fontMap := fontMap - {loaded[k].fontId};
        k := k + 1;
      }
    }

    lemma {:induction false} RemovedId(fonts: seq<LoadedFont>, k: nat)
      requires k < |fonts| && DistinctFonts(fonts) && fonts[k].fontId !in builtin
      ensures builtin + Ids(fonts[k..]) - {fonts[k].fontId} == builtin + Ids(fonts[k + 1..])
    {
      assert fonts[k..] == [fonts[k]] + fonts[k + 1..];
      forall f | f in fonts[k + 1..] ensures f.fontId != fonts[k].fontId {
        var n :| 0 <= n < |fonts[k + 1..]| && fonts[k + 1..][n] == f;
        assert f == fonts[k + 1 + n];
      }
    }

    method UnloadCpfonts()
      requires Valid()
      modifies this`fontMap, this`fallbacks, this`loaded, this`loadedFamilyName, this`loadedPointSize,
               this`cpfontVariants
      ensures Valid() && loaded == [] && cpfontVariants == [] && fallbacks == map[] && loadedFamilyName == []
    {
      cpfontVariants := [];
      UnloadAll();
    }

    /** Loads the family's file nearest to a size, as the only font. */
    method LoadFamily(name: Data, files: seq<FontFile>, pointSize: PointSize) returns (ok: bool)
      requires Valid() && cpfontVariants == [] && name != []
      modifies this`fontMap, this`fallbacks, this`loaded, this`loadedFamilyName, this`loadedPointSize, card`faults
      ensures Valid() && fallbacks == map[] && card.faults >= old(card.faults)
      ensures if ok then loadedFamilyName == name && FamilyLoaded(files, name, pointSize, loaded) else loaded == []
      ensures !ok ==>
        card.faults > old(card.faults) || !HasStyle(files, REGULAR) || FamilyTaken(files, name, pointSize, builtin)
    {
      if loadedFamilyName != [] {
        UnloadAll();
      }
      assert fallbacks == map[];
      var selected := FindNearestSize(files, pointSize, REGULAR);
      if selected.None? { return false; }
      assert fontMap == builtin;
      var id := LoadFile(selected.value, 0, name);
      if id == 0 { return false; }
      loadedFamilyName, loadedPointSize := name, selected.value.pointSize;
      ok := true;
    }

    // --- Variants ---

    /** Unloads one font behind the reader's. */
    method UnloadFont(fontId: FontId) returns (ghost k: nat)
      requires Valid() && Behind(loaded, fontId)
      modifies this`fontMap, this`loaded
      ensures ManagerOk(loadedFamilyName, loadedPointSize, loaded, fontMap, builtin)
      ensures 0 < k < |old(loaded)| && old(loaded)[k].fontId == fontId && loaded == Without(old(loaded), k)
      ensures fontMap == old(fontMap) - {fontId}
    {
      var i: nat := 0;
      while loaded[i].fontId != fontId
        invariant i < |loaded| && forall n :: 0 <= n < i ==> loaded[n].fontId != fontId
        decreases |loaded| - i
      {
        i := i + 1;
      }
      k := i;
      ghost var n :| 0 < n < |loaded| && loaded[n].fontId == fontId;
      Unloaded(loadedFamilyName, loadedPointSize, loaded, fontMap, builtin, k);
      fontMap := fontMap - {fontId};
      loaded := Without(loaded, i);
    }

    /** Evicts the least recently used variant. */
    method EvictOldest()
      requires Valid() && cpfontVariants != []
      modifies this`fontMap, this`loaded, this`cpfontVariants
      ensures Valid() && |cpfontVariants| == |old(cpfontVariants)| - 1 && loaded != [] && loaded[0] == old(loaded)[0]
      ensures Kept(old(loaded), loaded, old(cpfontVariants))
      ensures VariantIds(cpfontVariants) <= VariantIds(old(cpfontVariants))
      ensures fontMap <= old(fontMap)
      ensures exists v :: OldestGone(old(cpfontVariants), cpfontVariants, v)
    {
      var oldest: nat, i: nat := 0, 1;
      while i < |cpfontVariants|
        invariant oldest < i <= |cpfontVariants|
        invariant forall n :: 0 <= n < i ==> cpfontVariants[oldest].lastUse <= cpfontVariants[n].lastUse
      {
        if cpfontVariants[i].lastUse < cpfontVariants[oldest].lastUse {
          oldest := i;
        }
        i := i + 1;
      }
      var k := UnloadFont(cpfontVariants[oldest].fontId);
      Evicted(cpfontVariants, old(loaded), fallbacks, variantClock, oldest, k);
      StillFits(old(loaded), loaded, cpfontVariants, uiFontSizes, fallbacks);
      cpfontVariants := Without(cpfontVariants, oldest);
      assert OldestGone(old(cpfontVariants), cpfontVariants, oldest);
    }

    /** Stamps a variant that is loaded already. */
    method TouchVariant(fontId: FontId) returns (found: bool)
      requires Valid()
      modifies this`cpfontVariants, this`variantClock
      ensures Valid() && VariantIds(cpfontVariants) == VariantIds(old(cpfontVariants))
      ensures found <==> fontId in VariantIds(old(cpfontVariants))
      ensures if found
              then
                && variantClock > old(variantClock)
                && Stamped(old(cpfontVariants), cpfontVariants, fontId, variantClock)
              else cpfontVariants == old(cpfontVariants) && variantClock == old(variantClock)
    {
      var i: nat := 0;
      while i < |cpfontVariants|
        invariant i <= |cpfontVariants| && cpfontVariants == old(cpfontVariants) && variantClock == old(variantClock)
        invariant forall n :: 0 <= n < i ==> cpfontVariants[n].fontId != fontId
      {
        if cpfontVariants[i].fontId == fontId {
          StampedOk(cpfontVariants, loaded, fallbacks, variantClock, i);
          variantClock := variantClock + 1;
          cpfontVariants := cpfontVariants[i := cpfontVariants[i].(lastUse := variantClock)];
          assert StampedAt(old(cpfontVariants), cpfontVariants, i, fontId, variantClock);
          return true;
        }
        i := i + 1;
      }
      return false;
    }

    /** Makes the variant of a size available, evicting another if there are too many. */
    method LoadCpfontVariant(files: seq<FontFile>, pointSize: PointSize, fontId: FontId) returns (ok: bool)
      requires Valid() && loaded != [] && fontId == VariantFontId(loaded[0].fontId, pointSize)
      modifies this`fontMap, this`loaded, this`cpfontVariants, this`variantClock, card`faults
      ensures Valid() && loaded != [] && loaded[0] == old(loaded)[0] && Kept(old(loaded), loaded, old(cpfontVariants))
      ensures ok ==> fontId in Ids(loaded)
      ensures if fontId in VariantIds(old(cpfontVariants))
              then ok && loaded == old(loaded) && Stamped(old(cpfontVariants), cpfontVariants, fontId, variantClock)
              else Replaced(old(cpfontVariants), cpfontVariants, fontId, variantClock, ok)
      ensures fontId in VariantIds(cpfontVariants) ==> Newest(old(cpfontVariants), variantClock)
      ensures card.faults >= old(card.faults)
      ensures !ok ==> card.faults > old(card.faults) || !HasFile(files, pointSize, REGULAR)
                      || Taken(builtin, loaded[0].fontId, pointSize)
                      || (pointSize in {0, loaded[0].size} && fontId in old(fontMap))
    {
      var found := TouchVariant(fontId);
      if found {
        VariantIsLoaded(cpfontVariants, loaded, fallbacks, variantClock, fontId);
        return true;
      }
      var resident := IsResident(pointSize, fontId);
      if resident { return true; }
      var room := card.Try();
      if !room { return false; }
      ok := ReplaceVariant(files, pointSize, fontId);
    }

    /** Whether the size is loaded already under its variant id. */
    method IsResident(pointSize: PointSize, fontId: FontId) returns (resident: bool)
      requires Valid() && loaded != [] && fontId == VariantFontId(loaded[0].fontId, pointSize)
      ensures resident ==> fontId in Ids(loaded)
      ensures !resident ==>
        fontId !in fontMap || Taken(builtin, loaded[0].fontId, pointSize) || pointSize in {0, loaded[0].size}
    {
      NotElsewhere(loadedFamilyName, loadedPointSize, loaded, fontMap, builtin, pointSize);
      var id := GetFontId(loadedFamilyName, pointSize);
      resident := id == fontId;
      if resident {
        assert loaded[0] in loaded && forall k :: 0 <= k < |loaded| ==> loaded[k] in loaded;
      }
    }

    /** Makes room for a variant and loads it. */
    method ReplaceVariant(files: seq<FontFile>, pointSize: PointSize, fontId: FontId) returns (ok: bool)
      requires Valid() && loaded != [] && fontId == VariantFontId(loaded[0].fontId, pointSize)
      modifies this`fontMap, this`loaded, this`cpfontVariants, this`variantClock, card`faults
      ensures Valid() && loaded != [] && loaded[0] == old(loaded)[0] && Kept(old(loaded), loaded, old(cpfontVariants))
      ensures ok ==> fontId in Ids(loaded) && Newest(old(cpfontVariants), variantClock)
      ensures Replaced(old(cpfontVariants), cpfontVariants, fontId, variantClock, ok)
      ensures !ok ==> VariantIds(cpfontVariants) <= VariantIds(old(cpfontVariants))
      ensures card.faults >= old(card.faults)
      ensures !ok ==> card.faults > old(card.faults) || !HasFile(files, pointSize, REGULAR) || fontId in old(fontMap)
    {
      ghost var was := cpfontVariants;
      if |cpfontVariants| >= MAX_CPFONT_VARIANTS {
        EvictOldest();
      }
      ghost var mid := loaded;
      assert MadeRoom(old(cpfontVariants), cpfontVariants);
      ok := AddVariant(files, pointSize, fontId);
      StillKept(old(loaded), mid, loaded, was, old(cpfontVariants));
    }

    /** Loads the file of a size as one more variant. */
    method AddVariant(files: seq<FontFile>, pointSize: PointSize, fontId: FontId) returns (ok: bool)
      requires Valid() && loaded != [] && fontId == VariantFontId(loaded[0].fontId, pointSize)
      requires |cpfontVariants| < MAX_CPFONT_VARIANTS
      modifies this`fontMap, this`loaded, this`cpfontVariants, this`variantClock, card`faults
      ensures Valid() && old(loaded) <= loaded && (ok ==> fontId in Ids(loaded)) && card.faults >= old(card.faults)
      ensures if ok
              then
                && variantClock > old(variantClock)
                && cpfontVariants == old(cpfontVariants) + [CpfontVariant(fontId, variantClock)]
              else cpfontVariants == old(cpfontVariants)
      ensures !ok ==> card.faults > old(card.faults) || !HasFile(files, pointSize, REGULAR) || fontId in old(fontMap)
    {
      var file := FindFile(files, pointSize, REGULAR);
      if file.None? { return false; }
      ghost var mid := loaded;
      var id := LoadFile(file.value, fontId, loadedFamilyName);
      if id == 0 { return false; }
      NewFont(loadedFamilyName, loadedPointSize, mid, old(fontMap), builtin, LoadedFont(fontId, pointSize));
      variantClock := variantClock + 1;
      NewVariant(cpfontVariants, mid, fallbacks, variantClock, fontId, pointSize);
      StillFitsMore(mid, loaded, uiFontSizes, fallbacks);
      cpfontVariants := cpfontVariants + [CpfontVariant(fontId, variantClock)];
      ok := true;
    }

    /** The font to draw a reader font's text with at another scale: a built-in size, or a variant of the loaded
        family; 0 leaves the text at the reader's size. */
    method ResolveVariant(fontId: FontId, scale: real) returns (r: FontId)
      requires Valid()
      modifies this`fontMap, this`loaded, this`cpfontVariants, this`variantClock, card`faults
      ensures Valid() && Undisturbed(old(loaded), loaded, old(cpfontVariants)) && (r != 0 ==> r in fontMap)
      ensures card.faults >= old(card.faults)
      ensures builtinReaderFontVariant(fontId, scale) != 0 ==>
        r == if builtinReaderFontVariant(fontId, scale) in fontMap then builtinReaderFontVariant(fontId, scale) else 0
      ensures r == 0 && builtinReaderFontVariant(fontId, scale) == 0 && loaded != [] && loadedFamilyName in registry
              && fontId == loaded[0].fontId ==>
        card.faults > old(card.faults) || Unresolvable(registry[loadedFamilyName], loadedPointSize, scale, builtin,
                                                       fontId)
      ensures r != 0 && builtinReaderFontVariant(fontId, scale) == 0 ==>
        && loaded != [] && fontId == loaded[0].fontId && loadedFamilyName in registry
        && ResolvedTo(registry[loadedFamilyName], loadedPointSize, scale, loaded, fontId, r)
    {
      var native := builtinReaderFontVariant(fontId, scale);
      if native != 0 {
        return if native in fontMap then native else 0;
      }
      if loadedFamilyName == [] { return 0; }
      var readerFontId := GetFontId(loadedFamilyName, 0);
      if fontId != readerFontId { return 0; }
      if loadedFamilyName !in registry { return 0; }
      var files := registry[loadedFamilyName];
      var chosen := ChooseSize(files, loadedPointSize, scale);
      if chosen == loadedPointSize {
        assert loaded[0] in loaded && HasSize(loaded, fontId, fontId, chosen);
        return fontId;
      }
      r := ComputeVariantFontId(fontId, chosen);
      var ok := LoadCpfontVariant(files, chosen, r);
      if !ok { return 0; }
      SizeOfVariant(loadedFamilyName, loadedPointSize, loaded, fontMap, builtin, chosen, r);
    }

    /** Loads a variant again by its id, as cached pages name it. */
    method LoadVariant(fontId: FontId) returns (ok: bool)
      requires Valid()
      modifies this`fontMap, this`loaded, this`cpfontVariants, this`variantClock, card`faults
      ensures Valid() && Undisturbed(old(loaded), loaded, old(cpfontVariants)) && (ok ==> fontId in Ids(loaded))
      ensures card.faults >= old(card.faults)
      ensures !ok && loaded != [] && loadedFamilyName in registry ==>
        card.faults > old(card.faults) || forall f :: f in registry[loadedFamilyName] ==>
          NamesNothing(f, fontId, builtin, loaded[0], old(fontMap))
    {
      if loadedFamilyName == [] || loadedFamilyName !in registry { return false; }
      var files := registry[loadedFamilyName];
      var readerFontId := GetFontId(loadedFamilyName, 0);
      var i := FindSize(files, readerFontId, fontId);
      if i == |files| { return false; }
      ok := LoadCpfontVariant(files, files[i].pointSize, fontId);
      OneSize(files, i, fontId, readerFontId);
    }

    // --- The fonts UI text falls back to ---

    /** The loaded font of a size, or else the family's file of that size under the given id. */
    method LoadFamilyExtraSize(files: seq<FontFile>, pointSize: PointSize, fontId: FontId) returns (id: FontId)
      requires Valid() && loaded != [] && cpfontVariants == [] && fontId == VariantFontId(loaded[0].fontId, pointSize)
      requires pointSize != 0
      modifies this`fontMap, this`loaded, card`faults
      ensures Valid() && old(loaded) <= loaded && card.faults >= old(card.faults)
      ensures id == 0 ==> card.faults > old(card.faults) || !HasFile(files, pointSize, REGULAR)
                          || Taken(builtin, loaded[0].fontId, pointSize)
      ensures id != 0 ==> exists k :: 0 <= k < |loaded| && loaded[k] == LoadedFont(id, pointSize)
    {
      var file := FindFile(files, pointSize, REGULAR);
      if file.None? { return 0; }
      id := GetFontId(loadedFamilyName, pointSize);
      if id != 0 { return; }
      NotElsewhere(loadedFamilyName, loadedPointSize, loaded, fontMap, builtin, pointSize);
      ghost var before := loaded;
      id := LoadFile(file.value, fontId, loadedFamilyName);
      if id != 0 {
        NewFont(loadedFamilyName, loadedPointSize, before, old(fontMap), builtin, LoadedFont(id, pointSize));
        Added(cpfontVariants, before, fallbacks, variantClock, LoadedFont(id, pointSize));
        StillFitsMore(before, loaded, uiFontSizes, fallbacks);
        assert loaded[|before|] == LoadedFont(id, pointSize);
      }
    }

    /** Loads the family at the sizes of UI text, as fallbacks for the scripts the UI fonts lack. No variant may be
        loaded yet: a fallback that shared one would go away with it. */
    method SetupUiFallbacks()
      requires Valid() && cpfontVariants == [] && forall i :: 0 <= i < |uiFontSizes| ==> uiFontSizes[i].pointSize != 0
      modifies this`fontMap, this`loaded, this`fallbacks, card`faults
      ensures Valid() && old(loaded) <= loaded && card.faults >= old(card.faults)
      ensures card.faults == old(card.faults) && loaded != [] && loadedFamilyName in registry
              && coversFallbackScript(loaded[0].fontId) ==>
        ProvidedUpTo(registry[loadedFamilyName], builtin, loaded[0].fontId, uiFontSizes, |uiFontSizes|, fallbacks)
    {
      if loadedFamilyName == [] || loadedFamilyName !in registry { return; }
      var files := registry[loadedFamilyName];
      var readerFontId := GetFontId(loadedFamilyName, 0);
      if readerFontId !in fontMap || !coversFallbackScript(readerFontId) { return; }
      var i: nat := 0;
      while i < |uiFontSizes|
        invariant i <= |uiFontSizes| && Valid() && old(loaded) <= loaded && loaded != []
        invariant loaded[0].fontId == readerFontId
        invariant card.faults >= old(card.faults)
        invariant card.faults == old(card.faults) ==>
          ProvidedUpTo(files, builtin, readerFontId, uiFontSizes, i, fallbacks)
      {
        SetupFallback(files, i);
        i := i + 1;
      }
    }

    method SetupFallback(files: seq<FontFile>, i: nat)
      requires Valid() && cpfontVariants == [] && loaded != [] && i < |uiFontSizes| && uiFontSizes[i].pointSize != 0
      modifies this`fontMap, this`loaded, this`fallbacks, card`faults
      ensures Valid() && old(loaded) <= loaded && card.faults >= old(card.faults)
      ensures card.faults == old(card.faults)
              && ProvidedUpTo(files, builtin, loaded[0].fontId, uiFontSizes, i, old(fallbacks)) ==>
        ProvidedUpTo(files, builtin, loaded[0].fontId, uiFontSizes, i + 1, fallbacks)
    {
      var ui := uiFontSizes[i];
      ghost var before := loaded;
      var id := ComputeVariantFontId(loaded[0].fontId, ui.pointSize);
      var sdFontId := LoadFamilyExtraSize(files, ui.pointSize, id);
      NewFallback(before, loaded, uiFontSizes, i, sdFontId, fallbacks);
      if sdFontId != 0 {
        fallbacks := fallbacks[ui.fontId := sdFontId];
      }
      assert forall n :: 0 <= n < i && Provided(files, builtin, loaded[0].fontId, uiFontSizes[n], old(fallbacks)) ==>
        Provided(files, builtin, loaded[0].fontId, uiFontSizes[n], fallbacks);
    }

    /** Loads what the settings ask for. Variants and fallbacks never outlive the reader font they belong to. */
    method EnsureLoaded(wantedFamily: Data, wantedSize: PointSize, rediscovered: Option<map<Data, seq<FontFile>>>)
      requires Valid() && forall i :: 0 <= i < |uiFontSizes| ==> uiFontSizes[i].pointSize != 0
      modifies this, card`faults
      ensures Valid() && (loadedFamilyName == [] || loadedFamilyName == wantedFamily) && card.faults >= old(card.faults)
      ensures registry == if rediscovered.Some? then rediscovered.value else old(registry)
      ensures rediscovered.None? && old(loadedFamilyName) == wantedFamily != [] && wantedFamily in registry
              && HasNearestSize(registry[wantedFamily], wantedSize, old(loadedPointSize)) ==>
        && loaded == old(loaded) && loadedFamilyName == wantedFamily
        && cpfontVariants == old(cpfontVariants) && fallbacks == old(fallbacks)
      ensures loaded != [] ==> wantedFamily in registry
      ensures loaded != [] && HasStyle(registry[wantedFamily], REGULAR) ==>
        HasNearestSize(registry[wantedFamily], wantedSize, loaded[0].size)
      ensures loaded == [] && wantedFamily != [] && wantedFamily in registry ==>
        card.faults > old(card.faults) || !HasStyle(registry[wantedFamily], REGULAR)
        || FamilyTaken(registry[wantedFamily], wantedFamily, wantedSize, builtin)
      ensures loaded != [] && rediscovered.Some? ==> cpfontVariants == []
      ensures loaded != [] && card.faults == old(card.faults) && coversFallbackScript(loaded[0].fontId)
              && (rediscovered.Some? || old(loadedFamilyName) != wantedFamily) ==>
        ProvidedUpTo(registry[wantedFamily], builtin, loaded[0].fontId, uiFontSizes, |uiFontSizes|, fallbacks)
    {
      if rediscovered.Some? {
        registry := rediscovered.value;
      }
      if wantedFamily == [] {
        if loadedFamilyName != [] {
          UnloadCpfonts();
        }
        return;
      }
      if loadedFamilyName == wantedFamily {
        if wantedFamily !in registry {
          UnloadCpfonts();
          return;
        }
        var selected := FindNearestSize(registry[wantedFamily], wantedSize, REGULAR);
        var wantedPt := if selected.Some? then selected.value.pointSize else 0;
        SameNearest(registry[wantedFamily], wantedSize, selected);
        if rediscovered.None? && wantedPt == loadedPointSize { return; }
      }
      if loadedFamilyName != [] {
        UnloadCpfonts();
      }
      NothingLoaded(cpfontVariants, loaded, fallbacks, variantClock);
      if wantedFamily in registry {
        LoadWithFallbacks(wantedFamily, wantedSize);
      }
    }

    method LoadWithFallbacks(name: Data, pointSize: PointSize)
      requires Valid() && cpfontVariants == [] && loaded == [] && name != [] && name in registry
      requires forall i :: 0 <= i < |uiFontSizes| ==> uiFontSizes[i].pointSize != 0
      modifies this`fontMap, this`fallbacks, this`loaded, this`loadedFamilyName, this`loadedPointSize, card`faults
      ensures Valid() && card.faults >= old(card.faults)
      ensures loaded != [] ==> loadedFamilyName == name && HasNearestSize(registry[name], pointSize, loaded[0].size)
      ensures loaded == [] ==> card.faults > old(card.faults) || !HasStyle(registry[name], REGULAR)
                               || FamilyTaken(registry[name], name, pointSize, builtin)
      ensures loaded != [] && card.faults == old(card.faults) && coversFallbackScript(loaded[0].fontId) ==>
        ProvidedUpTo(registry[name], builtin, loaded[0].fontId, uiFontSizes, |uiFontSizes|, fallbacks)
    {
      var ok := LoadFamily(name, registry[name], pointSize);
      if ok {
        SetupUiFallbacks();
      }
    }
  }

  /** The reader's font stays in front, and only variants may have gone. */
  ghost predicate Undisturbed(before: seq<LoadedFont>, after: seq<LoadedFont>, variants: seq<CpfontVariant>) {
    (before == [] <==> after == []) && (before != [] ==> after[0] == before[0]) && Kept(before, after, variants)
  }

  /** Font `r` is loaded at the size, unless the variant id of the size is the reader's own. */
  ghost predicate HasSize(loaded: seq<LoadedFont>, reader: FontId, r: FontId, size: PointSize) {
    exists f :: f in loaded && f.fontId == r
                && (f.size == size || VariantFontId(reader, size) == reader)
  }

  /** The size chosen for a scale has no file to load, or its id is taken; 0 stands for the reader's size. */
  ghost predicate Unresolvable(files: seq<FontFile>, base: PointSize, scale: real, builtin: set<FontId>,
                               reader: FontId) {
    exists chosen :: IsChosen(files, base, scale, chosen) && chosen != base
                     && (chosen == 0 || !HasFile(files, chosen, REGULAR) || Taken(builtin, reader, chosen))
  }

  /** The file is not the one an id names, or the id is taken. */
  ghost predicate NamesNothing(f: FontFile, id: FontId, builtin: set<FontId>, reader: LoadedFont,
                               fontMap: set<FontId>) {
    || f.style != REGULAR || VariantFontId(reader.fontId, f.pointSize) != id
    || Taken(builtin, reader.fontId, f.pointSize) || (f.pointSize in {0, reader.size} && id in fontMap)
  }

  lemma {:induction false} OneSize(files: seq<FontFile>, i: nat, id: FontId, reader: FontId)
    requires i < |files| && VariantFontId(reader, files[i].pointSize) == id
    ensures forall f :: f in files && VariantFontId(reader, f.pointSize) == id ==> f.pointSize == files[i].pointSize
  {
    forall f | f in files && VariantFontId(reader, f.pointSize) == id ensures f.pointSize == files[i].pointSize {
      VariantIdsDiffer(reader, f.pointSize, files[i].pointSize);
    }
  }

  /** UI text has a fallback of its size, if the family has a file of it and the id is free. */
  ghost predicate Provided(files: seq<FontFile>, builtin: set<FontId>, reader: FontId, ui: UiFontSize,
                           fallbacks: map<FontId, FontId>) {
    HasFile(files, ui.pointSize, REGULAR) && !Taken(builtin, reader, ui.pointSize) ==> ui.fontId in fallbacks
  }

  ghost predicate ProvidedUpTo(files: seq<FontFile>, builtin: set<FontId>, reader: FontId, sizes: seq<UiFontSize>,
                               n: nat, fallbacks: map<FontId, FontId>)
    requires n <= |sizes|
  {
    forall i :: 0 <= i < n ==> Provided(files, builtin, reader, sizes[i], fallbacks)
  }

  /** When no other font of a size is loaded, its variant id is free or taken. */
  lemma {:induction false} NotElsewhere(name: Data, base: PointSize, loaded: seq<LoadedFont>, fontMap: set<FontId>,
                                        builtin: set<FontId>, pointSize: PointSize)
    requires ManagerOk(name, base, loaded, fontMap, builtin) && loaded != []
    ensures VariantFontId(loaded[0].fontId, pointSize) in fontMap && !Taken(builtin, loaded[0].fontId, pointSize) ==>
      exists k :: 0 < k < |loaded| && loaded[k] == LoadedFont(VariantFontId(loaded[0].fontId, pointSize), pointSize)
  {
    var id := VariantFontId(loaded[0].fontId, pointSize);
    if id in fontMap && !Taken(builtin, loaded[0].fontId, pointSize) {
      var f :| f in loaded && f.fontId == id;
      var k :| 0 <= k < |loaded| && loaded[k] == f;
      VariantIdsDiffer(loaded[0].fontId, pointSize, f.size);
    }
  }

  /** Font `r` is loaded at the size chosen for a scale. */
  ghost predicate ResolvedTo(files: seq<FontFile>, base: PointSize, scale: real, loaded: seq<LoadedFont>,
                             reader: FontId, r: FontId) {
    exists chosen :: IsChosen(files, base, scale, chosen) && HasSize(loaded, reader, r, chosen)
  }

  /** A fallback is a loaded font at its UI font's size. */
  ghost predicate FallsBack(loaded: seq<LoadedFont>, sizes: seq<UiFontSize>, role: FontId, id: FontId) {
    exists u :: u in sizes && u.fontId == role && LoadedFont(id, u.pointSize) in loaded
  }

  ghost predicate FallbacksFit(loaded: seq<LoadedFont>, sizes: seq<UiFontSize>, fallbacks: map<FontId, FontId>) {
    forall r :: r in fallbacks ==> FallsBack(loaded, sizes, r, fallbacks[r])
  }

  lemma {:induction false} SameNearest(files: seq<FontFile>, pointSize: PointSize, selected: Option<FontFile>)
    requires selected.Some? <==> HasStyle(files, REGULAR)
    requires selected.Some? ==> IsNearest(files, pointSize, REGULAR, selected.value)
    ensures forall size ::
              HasNearestSize(files, pointSize, size) <==> selected.Some? && selected.value.pointSize == size
  {
    forall size | HasNearestSize(files, pointSize, size) ensures selected.Some? && selected.value.pointSize == size {
      var f :| IsNearest(files, pointSize, REGULAR, f) && f.pointSize == size;
      NearestSize(files, pointSize, REGULAR, f, selected.value);
    }
  }

  /** Eviction does not touch what UI text falls back to. */
  lemma {:induction false} StillFits(before: seq<LoadedFont>, after: seq<LoadedFont>, variants: seq<CpfontVariant>,
                                     sizes: seq<UiFontSize>, fallbacks: map<FontId, FontId>)
    requires FallbacksFit(before, sizes, fallbacks) && Kept(before, after, variants)
    requires forall i, r :: 0 <= i < |variants| && r in fallbacks ==> fallbacks[r] != variants[i].fontId
    ensures FallbacksFit(after, sizes, fallbacks)
  {
    forall r | r in fallbacks ensures FallsBack(after, sizes, r, fallbacks[r]) {
      assert FallsBack(before, sizes, r, fallbacks[r]);
      var u :| u in sizes && u.fontId == r && LoadedFont(fallbacks[r], u.pointSize) in before;
      assert fallbacks[r] !in VariantIds(variants);
    }
  }

  lemma {:induction false} StillFitsMore(before: seq<LoadedFont>, after: seq<LoadedFont>, sizes: seq<UiFontSize>,
                                         fallbacks: map<FontId, FontId>)
    requires FallbacksFit(before, sizes, fallbacks) && before <= after
    ensures FallbacksFit(after, sizes, fallbacks)
  {
    StillLoaded(before, after);
    StillFits(before, after, [], sizes, fallbacks);
  }

  lemma {:induction false} NewFallback(before: seq<LoadedFont>, loaded: seq<LoadedFont>, sizes: seq<UiFontSize>,
                                       i: nat, id: FontId, fallbacks: map<FontId, FontId>)
    requires before <= loaded && FallbacksFit(before, sizes, fallbacks) && i < |sizes|
    requires id != 0 ==> LoadedFont(id, sizes[i].pointSize) in loaded
    ensures FallbacksFit(loaded, sizes, if id != 0 then fallbacks[sizes[i].fontId := id] else fallbacks)
  {
    StillLoaded(before, loaded);
    assert sizes[i] in sizes;
    var after := if id != 0 then fallbacks[sizes[i].fontId := id] else fallbacks;
    forall r | r in after ensures FallsBack(loaded, sizes, r, after[r]) {
      if id != 0 && r == sizes[i].fontId {
      } else {
        assert FallsBack(before, sizes, r, fallbacks[r]);
      }
    }
  }

  /** A font under the variant id of a size has that size, unless it is the reader's. */
  lemma {:induction false} SizeOfVariant(name: Data, pointSize: PointSize, loaded: seq<LoadedFont>,
                                         fontMap: set<FontId>, builtin: set<FontId>, chosen: PointSize, id: FontId)
    requires ManagerOk(name, pointSize, loaded, fontMap, builtin) && loaded != [] && id in Ids(loaded)
    requires id == VariantFontId(loaded[0].fontId, chosen)
    ensures HasSize(loaded, loaded[0].fontId, id, chosen)
  {
    var f :| f in loaded && f.fontId == id;
    var k :| 0 <= k < |loaded| && loaded[k] == f;
    VariantIdsDiffer(loaded[0].fontId, chosen, f.size);
  }

  lemma {:induction false} StillLoaded(before: seq<LoadedFont>, after: seq<LoadedFont>)
    requires before <= after
    ensures forall f :: f in before ==> f in after
  {
    forall f | f in before ensures f in after {
      var i :| 0 <= i < |before| && before[i] == f;
      assert after[i] == f;
    }
  }

  /** Without a reader font there is no variant either. */
  lemma {:induction false} NothingLoaded(variants: seq<CpfontVariant>, loaded: seq<LoadedFont>,
                                         fallbacks: map<FontId, FontId>, clock: nat)
    requires VariantsOk(variants, loaded, fallbacks, clock)
    ensures loaded == [] ==> variants == []
  {
    assert variants != [] ==> Behind(loaded, variants[0].fontId);
  }

  lemma {:induction false} StillKept(before: seq<LoadedFont>, mid: seq<LoadedFont>, after: seq<LoadedFont>,
                                     variants: seq<CpfontVariant>, all: seq<CpfontVariant>)
    requires Kept(before, mid, variants) && mid <= after && VariantIds(variants) <= VariantIds(all)
    ensures Kept(before, after, all)
  {
    forall f | f in mid ensures f in after {
      var i :| 0 <= i < |mid| && mid[i] == f;
      assert after[i] == f;
    }
  }

  lemma {:induction false} NewFont(name: Data, pointSize: PointSize, loaded: seq<LoadedFont>, fontMap: set<FontId>,
                                   builtin: set<FontId>, f: LoadedFont)
    requires ManagerOk(name, pointSize, loaded, fontMap, builtin) && loaded != [] && f.fontId !in fontMap
    requires f.fontId != 0
    requires f.fontId == VariantFontId(loaded[0].fontId, f.size)
    ensures ManagerOk(name, pointSize, loaded + [f], fontMap + {f.fontId}, builtin)
    ensures f.fontId in Ids(loaded + [f]) && f.fontId !in Ids(loaded)
  {
    var more := loaded + [f];
    forall k | 0 <= k < |loaded| ensures more[k] == loaded[k] && loaded[k].fontId != f.fontId {
      assert loaded[k] in loaded;
    }
    assert more[|loaded|] == f && f in more;
    assert Ids(more) == Ids(loaded) + {f.fontId};
  }

  lemma {:induction false} SameIds(a: seq<CpfontVariant>, b: seq<CpfontVariant>)
    requires |a| == |b| && forall i :: 0 <= i < |a| ==> a[i].fontId == b[i].fontId
    ensures VariantIds(a) == VariantIds(b)
  {
    forall v | v in a ensures v.fontId in VariantIds(b) {
      var i :| 0 <= i < |a| && a[i] == v;
      assert b[i] in b;
    }
    forall v | v in b ensures v.fontId in VariantIds(a) {
      var i :| 0 <= i < |b| && b[i] == v;
      assert a[i] in a;
    }
  }

  ghost predicate StampedAt(before: seq<CpfontVariant>, after: seq<CpfontVariant>, i: nat, id: FontId, clock: nat) {
    i < |before| && before[i].fontId == id && after == before[i := CpfontVariant(id, clock)]
  }

  /** The variant was used now, and the others are as they were. */
  ghost predicate Stamped(before: seq<CpfontVariant>, after: seq<CpfontVariant>, id: FontId, clock: nat) {
    exists i :: StampedAt(before, after, i, id, clock)
  }

  /** Every variant was last used before `clock`. */
  ghost predicate Newest(before: seq<CpfontVariant>, clock: nat) {
    forall i :: 0 <= i < |before| ==> before[i].lastUse < clock
  }

  /** Variant `v` is gone, and none had gone unused for longer. */
  ghost predicate OldestGone(before: seq<CpfontVariant>, after: seq<CpfontVariant>, v: nat) {
    && v < |before| && after == before[..v] + before[v + 1..]
    && forall n :: 0 <= n < |before| ==> before[v].lastUse <= before[n].lastUse
  }

  /** One variant went if there was no room for another, and none otherwise. */
  ghost predicate MadeRoom(before: seq<CpfontVariant>, after: seq<CpfontVariant>) {
    if |before| < MAX_CPFONT_VARIANTS then after == before else exists v :: OldestGone(before, after, v)
  }

  /** The new variant came last, after making room for it; or nothing was loaded. */
  ghost predicate Replaced(before: seq<CpfontVariant>, after: seq<CpfontVariant>, id: FontId, clock: nat, ok: bool) {
    after == before
    || exists room :: MadeRoom(before, room) && after == if ok then room + [CpfontVariant(id, clock)] else room
  }

  lemma {:induction false} StampedOk(variants: seq<CpfontVariant>, loaded: seq<LoadedFont>,
                                     fallbacks: map<FontId, FontId>, clock: nat, i: nat)
    requires VariantsOk(variants, loaded, fallbacks, clock) && i < |variants|
    ensures var after := variants[i := variants[i].(lastUse := clock + 1)];
            VariantsOk(after, loaded, fallbacks, clock + 1) && VariantIds(after) == VariantIds(variants)
    ensures variants[i].fontId in VariantIds(variants)
  {
    SameIds(variants, variants[i := variants[i].(lastUse := clock + 1)]);
    assert variants[i] in variants;
  }

  lemma {:induction false} VariantIsLoaded(variants: seq<CpfontVariant>, loaded: seq<LoadedFont>,
                                           fallbacks: map<FontId, FontId>, clock: nat, id: FontId)
    requires VariantsOk(variants, loaded, fallbacks, clock) && id in VariantIds(variants)
    ensures id in Ids(loaded)
  {
    var v :| v in variants && v.fontId == id;
    var i :| 0 <= i < |variants| && variants[i] == v;
    var k :| 0 < k < |loaded| && loaded[k].fontId == id;
    assert loaded[k] in loaded;
  }

  lemma {:induction false} NewVariant(variants: seq<CpfontVariant>, loaded: seq<LoadedFont>,
                                      fallbacks: map<FontId, FontId>, clock: nat, id: FontId, pointSize: PointSize)
    requires clock > 0 && VariantsOk(variants, loaded, fallbacks, clock - 1)
    requires |variants| < MAX_CPFONT_VARIANTS && id !in Ids(loaded) && loaded != []
    ensures VariantsOk(variants + [CpfontVariant(id, clock)], loaded + [LoadedFont(id, pointSize)], fallbacks, clock)
  {
    var more := loaded + [LoadedFont(id, pointSize)];
    Added(variants, loaded, fallbacks, clock - 1, LoadedFont(id, pointSize));
    assert more[|loaded|].fontId == id;
    forall i | 0 <= i < |variants| ensures variants[i].fontId != id {
      assert variants[i] in variants;
      VariantIsLoaded(variants, loaded, fallbacks, clock - 1, variants[i].fontId);
    }
  }
}
