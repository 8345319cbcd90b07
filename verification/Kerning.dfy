/** Kerning tables in their four representations (lib/EpdFont/EpdFont.cpp, EpdFontData.h). */
module Kerning {
  import opened Bytes

  datatype KernClassEntry = KernClassEntry(codepoint: nat, classId: nat)

  /** What a representation stands for: the class of each codepoint on either side, and a value for every pair of
      classes. */
  datatype KernTable = KernTable(left: seq<KernClassEntry>, right: seq<KernClassEntry>, rows: seq<seq<int>>,
                                 columns: nat)

  function ClassOf(entries: seq<KernClassEntry>, cp: nat): nat {
    if entries == [] then 0 else if entries[0].codepoint == cp then entries[0].classId else ClassOf(entries[1..], cp)
  }

  ghost predicate Ascending(entries: seq<KernClassEntry>) {
    forall i, j :: 0 <= i < j < |entries| ==> entries[i].codepoint < entries[j].codepoint
  }

  ghost predicate ClassesWithin(entries: seq<KernClassEntry>, count: nat) {
    forall i :: 0 <= i < |entries| ==> entries[i].codepoint <= 0xFFFF && entries[i].classId <= count
  }

  ghost predicate WellFormed(t: KernTable) {
    && Ascending(t.left) && Ascending(t.right)
    && ClassesWithin(t.left, |t.rows|) && ClassesWithin(t.right, t.columns)
    && forall l :: 0 <= l < |t.rows| ==> |t.rows[l]| == t.columns
  }

  /** The kerning of a pair: none when either side has no class. */
  function KernOf(t: KernTable, leftCp: nat, rightCp: nat): int {
    var lc, rc := ClassOf(t.left, leftCp), ClassOf(t.right, rightCp);
    if 0 < lc <= |t.rows| && 0 < rc <= |t.rows[lc - 1]| then t.rows[lc - 1][rc - 1] else 0
  }

  lemma {:induction false} ClassAt(entries: seq<KernClassEntry>, i: nat)
    requires Ascending(entries) && i < |entries|
    ensures ClassOf(entries, entries[i].codepoint) == entries[i].classId
  {
    if i > 0 {
      ClassAt(entries[1..], i - 1);
    }
  }

  lemma {:induction false} NoClass(entries: seq<KernClassEntry>, cp: nat)
    requires forall i :: 0 <= i < |entries| ==> entries[i].codepoint != cp
    ensures ClassOf(entries, cp) == 0
  {
    if entries != [] {
      NoClass(entries[1..], cp);
    }
  }

  /** A pair with an entry on either side is kerned by the value of their classes, which count from one; a class of
      zero, or no entry, is no kerning. */
  lemma {:induction false} KernIs(t: KernTable, i: nat, j: nat)
    requires WellFormed(t) && i < |t.left| && j < |t.right|
    ensures KernOf(t, t.left[i].codepoint, t.right[j].codepoint) ==
            if t.left[i].classId == 0 || t.right[j].classId == 0 then 0
            else t.rows[t.left[i].classId - 1][t.right[j].classId - 1]
  {
    ClassAt(t.left, i);
    ClassAt(t.right, j);
  }

  lemma {:induction false} KernNone(t: KernTable, a: nat, b: nat)
    requires (forall i :: 0 <= i < |t.left| ==> t.left[i].codepoint != a)
             || forall j :: 0 <= j < |t.right| ==> t.right[j].codepoint != b
    ensures KernOf(t, a, b) == 0
  {
    if forall i :: 0 <= i < |t.left| ==> t.left[i].codepoint != a {
      NoClass(t.left, a);
    } else {
      NoClass(t.right, b);
    }
  }

  // --- The font's data ---

  /** The pointers that select a representation are the optional ones. */
  datatype KernData = KernData(
    leftClasses: Option<seq<KernClassEntry>>, rightClasses: seq<KernClassEntry>,
    leftCodepoints: Option<seq<nat>>, leftClassIds: seq<nat>, rightCodepoints: seq<nat>, rightClassIds: seq<nat>,
    matrix: Option<seq<int>>, rightClassCount: nat,
    rowOffsets: Option<seq<nat>>, sparseCols: seq<nat>, sparseValues: seq<int>)

  /** The parallel arrays of the split form. */
  ghost predicate SplitOf(codepoints: seq<nat>, classIds: seq<nat>, entries: seq<KernClassEntry>) {
    |codepoints| == |classIds| == |entries|
    && forall i :: 0 <= i < |entries| ==> entries[i] == KernClassEntry(codepoints[i], classIds[i])
  }

  function Flat(rows: seq<seq<int>>): seq<int> {
    if rows == [] then [] else Flat(rows[..|rows| - 1]) + rows[|rows| - 1]
  }

  ghost predicate Stored(data: KernData, l: nat, col: nat, i: nat)
    requires data.rowOffsets.Some? && l + 1 < |data.rowOffsets.value|
    requires data.rowOffsets.value[l + 1] <= |data.sparseCols|
  {
    data.rowOffsets.value[l] <= i < data.rowOffsets.value[l + 1] && data.sparseCols[i] == col
  }

  /** Row `l` of the compressed form: its stored columns ascend, and what is not stored is zero. */
  ghost predicate RowOf(data: KernData, t: KernTable, l: nat)
    requires data.rowOffsets.Some? && l < |t.rows| && |data.rowOffsets.value| == |t.rows| + 1
  {
    var begin, end := data.rowOffsets.value[l], data.rowOffsets.value[l + 1];
    && begin <= end <= |data.sparseCols| == |data.sparseValues|
    && (forall i, j :: begin <= i < j < end ==> data.sparseCols[i] < data.sparseCols[j])
    && (forall i :: begin <= i < end ==>
          data.sparseCols[i] < |t.rows[l]| && t.rows[l][data.sparseCols[i]] == data.sparseValues[i])
    && forall c :: 0 <= c < |t.rows[l]| ==> t.rows[l][c] == 0 || exists i :: Stored(data, l, c, i)
  }

  ghost predicate ClassesOf(data: KernData, t: KernTable) {
    if data.leftCodepoints.Some?
    then
      && SplitOf(data.leftCodepoints.value, data.leftClassIds, t.left)
      && SplitOf(data.rightCodepoints, data.rightClassIds, t.right)
    else data.leftClasses == Some(t.left) && data.rightClasses == t.right
  }

  ghost predicate ValuesOf(data: KernData, t: KernTable) {
    if data.rowOffsets.Some?
    then |data.rowOffsets.value| == |t.rows| + 1 && forall l :: 0 <= l < |t.rows| ==> RowOf(data, t, l)
    else data.matrix == Some(Flat(t.rows)) && data.rightClassCount == t.columns
  }

  /** The font's data stand for the table, split or packed, sparse or dense. */
  ghost predicate Represents(data: KernData, t: KernTable) {
    WellFormed(t) && ClassesOf(data, t) && ValuesOf(data, t)
  }

  // --- Lookups ---

  method LookupKernClass(entries: seq<KernClassEntry>, cp: nat) returns (classId: nat)
    requires Ascending(entries) && forall i :: 0 <= i < |entries| ==> entries[i].codepoint <= 0xFFFF
    ensures classId == ClassOf(entries, cp)
  {
    if |entries| == 0 || cp > 0xFFFF {
      NoClass(entries, cp);
      return 0;
    }
    var lo, hi := 0, |entries|;
    while lo < hi
      invariant 0 <= lo <= hi <= |entries|
      invariant forall k :: 0 <= k < lo ==> entries[k].codepoint < cp
      invariant forall k :: hi <= k < |entries| ==> entries[k].codepoint >= cp
    {
      var mid := lo + (hi - lo) / 2;
      if entries[mid].codepoint < cp { lo := mid + 1; } else { hi := mid; }
    }
    if lo < |entries| && entries[lo].codepoint == cp {
      ClassAt(entries, lo);
      return entries[lo].classId;
    }
    NoClass(entries, cp);
    return 0;
  }

  method LookupKernClassSplit(codepoints: seq<nat>, classIds: seq<nat>, cp: nat, ghost entries: seq<KernClassEntry>)
    returns (classId: nat)
    requires SplitOf(codepoints, classIds, entries) && Ascending(entries)
    requires forall i :: 0 <= i < |entries| ==> entries[i].codepoint <= 0xFFFF
    ensures classId == ClassOf(entries, cp)
  {
    if |codepoints| == 0 || cp > 0xFFFF {
      NoClass(entries, cp);
      return 0;
    }
    var lo, hi := 0, |codepoints|;
    while lo < hi
      invariant 0 <= lo <= hi <= |codepoints|
      invariant forall k :: 0 <= k < lo ==> entries[k].codepoint < cp
      invariant forall k :: hi <= k < |codepoints| ==> entries[k].codepoint >= cp
    {
      var mid := lo + (hi - lo) / 2;
      assert entries[mid].codepoint == codepoints[mid];
      if codepoints[mid] < cp { lo := mid + 1; } else { hi := mid; }
    }
    if lo < |codepoints| && codepoints[lo] == cp {
      ClassAt(entries, lo);
      return classIds[lo];
    }
    NoClass(entries, cp);
    return 0;
  }

  /** The scan of a sparse row, which stops at the first column past the target. */
  method ScanRow(data: KernData, ghost t: KernTable, l: nat, target: nat) returns (value: int)
    requires Represents(data, t) && data.rowOffsets.Some? && l < |t.rows| && target < |t.rows[l]|
    ensures value == t.rows[l][target]
  {
    assert RowOf(data, t, l);
    var begin, end := data.rowOffsets.value[l], data.rowOffsets.value[l + 1];
    var i := begin;
    while i < end
      invariant begin <= i <= end && forall k :: begin <= k < i ==> data.sparseCols[k] < target
    {
      if data.sparseCols[i] == target { return data.sparseValues[i]; }
      if data.sparseCols[i] > target { break; }
      i := i + 1;
    }
    assert forall k :: !Stored(data, l, target, k);
    return 0;
  }

  lemma {:induction false} FlatLength(rows: seq<seq<int>>, n: nat)
    requires forall l :: 0 <= l < |rows| ==> |rows[l]| == n
    ensures |Flat(rows)| == |rows| * n
  {
    if rows != [] {
      FlatLength(rows[..|rows| - 1], n);
    }
  }

  lemma {:induction false} FlatAt(rows: seq<seq<int>>, n: nat, l: nat, c: nat)
    requires (forall k :: 0 <= k < |rows| ==> |rows[k]| == n) && l < |rows| && c < n
    ensures 0 <= l * n + c < |Flat(rows)| && Flat(rows)[l * n + c] == rows[l][c]
  {
    var init := rows[..|rows| - 1];
    FlatLength(init, n);
    if l < |rows| - 1 {
      FlatAt(init, n, l, c);
    } else {
      assert l * n == |Flat(init)|;
    }
  }

  /** EpdFont::getKerning. Breakable CJK codepoints never kern, and a font with its own handler is asked instead. */
  method GetKerning(data: KernData, isCjkBreakable: nat -> bool, handler: Option<(nat, nat) -> int>, ghost t: KernTable,
                    leftCp: nat, rightCp: nat) returns (value: int)
    requires handler.Some? || Represents(data, t) || NoKerning(data)
    ensures value == if isCjkBreakable(leftCp) || isCjkBreakable(rightCp) then 0
                     else if handler.Some? then handler.value(leftCp, rightCp)
                     else if NoKerning(data) then 0
                     else KernOf(t, leftCp, rightCp)
  {
    if isCjkBreakable(leftCp) || isCjkBreakable(rightCp) { return 0; }
    if handler.Some? { return handler.value(leftCp, rightCp); }
    if data.matrix.None? && data.rowOffsets.None? { return 0; }
    if data.leftClasses.None? && data.leftCodepoints.None? { return 0; }
    var split := data.leftCodepoints.Some?;
    var lc;
    if split {
      lc := LookupKernClassSplit(data.leftCodepoints.value, data.leftClassIds, leftCp, t.left);
    } else {
      lc := LookupKernClass(data.leftClasses.value, leftCp);
    }
    if lc == 0 { return 0; }
    var rc;
    if split {
      rc := LookupKernClassSplit(data.rightCodepoints, data.rightClassIds, rightCp, t.right);
    } else {
      rc := LookupKernClass(data.rightClasses, rightCp);
    }
    if rc == 0 { return 0; }
    ClassBound(t.left, |t.rows|, leftCp);
    ClassBound(t.right, t.columns, rightCp);
    if data.rowOffsets.Some? {
      value := ScanRow(data, t, lc - 1, rc - 1);
    } else {
      FlatAt(t.rows, t.columns, lc - 1, rc - 1);
      value := data.matrix.value[(lc - 1) * data.rightClassCount + (rc - 1)];
    }
  }

  predicate NoKerning(data: KernData) {
    (data.matrix.None? && data.rowOffsets.None?) || (data.leftClasses.None? && data.leftCodepoints.None?)
  }

  lemma {:induction false} ClassBound(entries: seq<KernClassEntry>, count: nat, cp: nat)
    requires ClassesWithin(entries, count)
    ensures ClassOf(entries, cp) <= count
  {
    if entries != [] {
      ClassBound(entries[1..], count, cp);
    }
  }
}
