/** Which pre-rasterized fonts are loaded: the reader's, those that UI text falls back to, and sized variants of the
    reader's that come and go (lib/EpdFont/SdCardFontManager.cpp, src/SdCardFontSystem.cpp). */
module FontVariants {
  import opened Bytes
  import opened FontIds

  /** Inline, block and drop-cap fonts. */
  const MAX_CPFONT_VARIANTS := 5

  /** The style a family is loaded in; a .cpfont file bundles all four and counts as this one. */
  const REGULAR := 0

  datatype FontFile = FontFile(pointSize: PointSize, style: nat, contentHash: FontId)
  datatype LoadedFont = LoadedFont(fontId: FontId, size: PointSize)
  datatype CpfontVariant = CpfontVariant(fontId: FontId, lastUse: nat)

  /** A UI font of the renderer and its physical size. */
  datatype UiFontSize = UiFontSize(fontId: FontId, pointSize: PointSize)

  function NameHash(contentHash: FontId, name: Data): FontId {
    if name == [] then contentHash else Mixed(NameHash(contentHash, name[..|name| - 1]), name[|name| - 1])
  }

  /** SdCardFontManager::computeFontId. */
  function ComputeFontId(contentHash: FontId, name: Data, pointSize: PointSize): (id: FontId)
    ensures id != 0
  {
    var hash := Mixed(NameHash(contentHash, name), pointSize);
    if hash != 0 then hash else 1
  }

  /** The same, as the source computes it. */
  method HashFontId(contentHash: FontId, name: Data, pointSize: PointSize) returns (id: FontId)
    ensures id == ComputeFontId(contentHash, name, pointSize)
  {
    var hash := contentHash;
    var i: nat := 0;
    while i < |name|
      invariant i <= |name| && hash == NameHash(contentHash, name[..i])
    {
      assert name[..i + 1][..i] == name[..i];
      hash := Xor(hash, name[i]) * 16777619 % 0x1_0000_0000;
      i := i + 1;
    }
    assert name[..i] == name;
    hash := Xor(hash, pointSize) * 16777619 % 0x1_0000_0000;
    id := if hash != 0 then hash else 1;
  }

  function Ids(loaded: seq<LoadedFont>): set<FontId> {
    set f | f in loaded :: f.fontId
  }

  function VariantIds(variants: seq<CpfontVariant>): set<FontId> {
    set v | v in variants :: v.fontId
  }

  // --- Choosing a size ---

  function Distance(a: nat, b: nat): nat {
    if a > b then a - b else b - a
  }

  /** The file of a style whose size is nearest; of two equally near sizes the smaller. */
  ghost predicate IsNearest(files: seq<FontFile>, pointSize: PointSize, style: nat, best: FontFile) {
    && best in files && best.style == style
    && forall f :: f in files && f.style == style ==> NoNearer(f, best, pointSize)
  }

  predicate NoNearer(f: FontFile, best: FontFile, pointSize: PointSize) {
    || Distance(best.pointSize, pointSize) < Distance(f.pointSize, pointSize)
    || (Distance(best.pointSize, pointSize) == Distance(f.pointSize, pointSize) && best.pointSize <= f.pointSize)
  }

  predicate HasStyle(files: seq<FontFile>, style: nat) {
    exists f :: f in files && f.style == style
  }

  predicate HasFile(files: seq<FontFile>, pointSize: PointSize, style: nat) {
    exists f :: f in files && f.pointSize == pointSize && f.style == style
  }

  /** SdCardFontFamilyInfo::findNearestSize. */
  method FindNearestSize(files: seq<FontFile>, pointSize: PointSize, style: nat) returns (best: Option<FontFile>)
    ensures best.Some? <==> HasStyle(files, style)
    ensures best.Some? ==> IsNearest(files, pointSize, style, best.value)
  {
    best := None;
    var bestDelta: nat, i: nat := 255, 0;
    while i < |files|
      invariant i <= |files| && (best.Some? <==> HasStyle(files[..i], style))
      invariant best.Some? ==> IsNearest(files[..i], pointSize, style, best.value)
      invariant best.Some? ==> bestDelta == Distance(best.value.pointSize, pointSize)
    {
      var f := files[i];
      assert files[..i + 1] == files[..i] + [f];
      assert f in files[..i + 1] && forall g :: g in files[..i] ==> g in files[..i + 1];
      if f.style == style {
        var delta := if f.pointSize > pointSize then f.pointSize - pointSize else pointSize - f.pointSize;
        if best.None? || delta < bestDelta || (delta == bestDelta && f.pointSize < best.value.pointSize) {
          best, bestDelta := Some(f), delta;
        }
      }
      i := i + 1;
    }
    assert files[..i] == files;
  }

  /** Any two nearest files have the same size. */
  lemma {:induction false} NearestSize(files: seq<FontFile>, pointSize: PointSize, style: nat, f: FontFile, g: FontFile)
    requires IsNearest(files, pointSize, style, f) && IsNearest(files, pointSize, style, g)
    ensures f.pointSize == g.pointSize
  {
    assert NoNearer(g, f, pointSize) && NoNearer(f, g, pointSize);
  }

  /** SdCardFontFamilyInfo::findFile. */
  method FindFile(files: seq<FontFile>, pointSize: PointSize, style: nat) returns (file: Option<FontFile>)
    ensures file.Some? <==> HasFile(files, pointSize, style)
    ensures file.Some? ==> file.value in files && file.value.pointSize == pointSize && file.value.style == style
  {
    var i: nat := 0;
    while i < |files|
      invariant i <= |files| && !HasFile(files[..i], pointSize, style)
    {
      assert files[..i + 1] == files[..i] + [files[i]];
      if files[i].pointSize == pointSize && files[i].style == style { return Some(files[i]); }
      i := i + 1;
    }
    assert files[..i] == files;
    return None;
  }

  function Abs(x: real): (r: real)
    ensures r >= 0.0 && (r == x || r == -x)
  {
    if x < 0.0 then -x else x
  }

  /** Shrinking takes the largest size at or below the target, or else the smallest there is; growing the nearest. */
  ghost predicate IsChosen(files: seq<FontFile>, base: PointSize, scale: real, chosen: PointSize) {
    var target := base as real * scale;
    if scale < 1.0 then
      if exists f :: f in files && 0 < f.pointSize && f.pointSize as real <= target
      then (exists f :: f in files && f.pointSize == chosen) && chosen as real <= target
           && forall f :: f in files && f.pointSize as real <= target ==> f.pointSize <= chosen
      else (chosen == base || exists f :: f in files && f.pointSize == chosen)
           && chosen <= base && forall f :: f in files ==> chosen <= f.pointSize
    else (chosen == base || exists f :: f in files && f.pointSize == chosen)
         && Abs(chosen as real - target) <= Abs(base as real - target)
         && forall f :: f in files ==> Abs(chosen as real - target) <= Abs(f.pointSize as real - target)
  }

  method ShrinkTo(files: seq<FontFile>, base: PointSize, target: real)
    returns (atOrBelow: PointSize, smallest: PointSize)
    ensures atOrBelow == 0 ==> forall f :: f in files ==> f.pointSize == 0 || f.pointSize as real > target
    ensures atOrBelow > 0 ==> (exists f :: f in files && f.pointSize == atOrBelow) && atOrBelow as real <= target
    ensures forall f :: f in files && f.pointSize as real <= target ==> f.pointSize <= atOrBelow
    ensures (smallest == base || exists f :: f in files && f.pointSize == smallest) && smallest <= base
    ensures forall f :: f in files ==> smallest <= f.pointSize
  {
    atOrBelow, smallest := 0, base;
    var i: nat := 0;
    while i < |files|
      invariant i <= |files|
      invariant atOrBelow > 0 ==> (exists f :: f in files && f.pointSize == atOrBelow) && atOrBelow as real <= target
      invariant forall f :: f in files[..i] && f.pointSize as real <= target ==> f.pointSize <= atOrBelow
      invariant (smallest == base || exists f :: f in files && f.pointSize == smallest) && smallest <= base
      invariant forall f :: f in files[..i] ==> smallest <= f.pointSize
    {
      var f := files[i];
      assert files[..i + 1] == files[..i] + [f];
      if f.pointSize as real <= target && f.pointSize > atOrBelow { atOrBelow := f.pointSize; }
      if f.pointSize < smallest { smallest := f.pointSize; }
      i := i + 1;
    }
    assert files[..i] == files;
  }

  method GrowTo(files: seq<FontFile>, base: PointSize, target: real) returns (chosen: PointSize)
    ensures chosen == base || exists f :: f in files && f.pointSize == chosen
    ensures Abs(chosen as real - target) <= Abs(base as real - target)
    ensures forall f :: f in files ==> Abs(chosen as real - target) <= Abs(f.pointSize as real - target)
  {
    chosen := base;
    var i: nat := 0;
    while i < |files|
      invariant i <= |files| && (chosen == base || exists f :: f in files && f.pointSize == chosen)
      invariant Abs(chosen as real - target) <= Abs(base as real - target)
      invariant forall f :: f in files[..i] ==> Abs(chosen as real - target) <= Abs(f.pointSize as real - target)
    {
      assert files[..i + 1] == files[..i] + [files[i]];
      if Abs(files[i].pointSize as real - target) < Abs(chosen as real - target) {
        chosen := files[i].pointSize;
      }
      i := i + 1;
    }
    assert files[..i] == files;
  }

  method ChooseSize(files: seq<FontFile>, base: PointSize, scale: real) returns (chosen: PointSize)
    ensures IsChosen(files, base, scale, chosen)
  {
    var target := base as real * scale;
    if scale < 1.0 {
      var atOrBelow, smallest := ShrinkTo(files, base, target);
      chosen := if atOrBelow != 0 then atOrBelow else smallest;
    } else {
      chosen := GrowTo(files, base, target);
    }
  }
}
