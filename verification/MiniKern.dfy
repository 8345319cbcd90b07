/** The per-page kern matrix with renumbered classes (SdCardFont::buildMiniKernMatrix). */
module MiniKern {
  import opened Bytes
  import opened Card
  import opened Kerning
  import opened KernClasses

  const CLASS_IDS := 256

  /** What the card holds of a style's kerning; the classes of entries are 8 bits wide and may lie past the matrix. */
  datatype KernFile = KernFile(left: seq<KernClassEntry>, right: seq<KernClassEntry>, rows: seq<seq<int>>, columns: nat)

  ghost predicate FileOk(file: KernFile) {
    && Ascending(file.left) && Ascending(file.right)
    && (forall i :: 0 <= i < |file.left| ==> file.left[i].codepoint <= 0xFFFF)
    && (forall i :: 0 <= i < |file.right| ==> file.right[i].codepoint <= 0xFFFF)
    && |file.rows| < CLASS_IDS && file.columns < CLASS_IDS
    && forall l :: 0 <= l < |file.rows| ==> |file.rows[l]| == file.columns
  }

  /** The full table, with classes past the matrix as none. */
  function FullTable(file: KernFile): KernTable {
    KernTable(ClampedTable(file.left, |file.rows|), ClampedTable(file.right, file.columns), file.rows, file.columns)
  }

  /** What the file's kerning is, on its entries: a pair is kerned by the value of its two classes if both lie in the
      matrix, which they count from one, and else not at all. */
  lemma {:induction false} FullKern(file: KernFile, i: nat, j: nat)
    requires FileOk(file) && i < |file.left| && j < |file.right|
    ensures KernOf(FullTable(file), file.left[i].codepoint, file.right[j].codepoint) ==
            var l, r := file.left[i].classId, file.right[j].classId;
            if 1 <= l <= |file.rows| && 1 <= r <= file.columns then file.rows[l - 1][r - 1] else 0
  {
    ClassAt(ClampedTable(file.left, |file.rows|), i);
    ClassAt(ClampedTable(file.right, file.columns), j);
  }

  /** A codepoint without an entry on its side is not kerned. */
  lemma {:induction false} FullKernNone(file: KernFile, a: nat, b: nat)
    requires (forall i :: 0 <= i < |file.left| ==> file.left[i].codepoint != a)
             || forall j :: 0 <= j < |file.right| ==> file.right[j].codepoint != b
    ensures KernOf(FullTable(file), a, b) == 0
  {
    KernNone(FullTable(file), a, b);
  }

  // --- Renumbering ---

  /** Dense numbers from 1 on for the used classes below `n`, in ascending order, and the way back. */
  ghost predicate Renumbered(used: seq<bool>, n: nat, renumber: seq<nat>, newToOld: seq<nat>, count: nat) {
    && |used| == |renumber| == |newToOld| == CLASS_IDS && 1 <= n <= CLASS_IDS && count < n
    && (forall c :: 0 <= c < CLASS_IDS ==>
          if c < n && c > 0 && used[c] then 1 <= renumber[c] <= count && newToOld[renumber[c]] == c
          else renumber[c] == 0)
    && (forall k :: 1 <= k <= count ==> 1 <= newToOld[k] < n && used[newToOld[k]] && renumber[newToOld[k]] == k)
  }

  method Renumber(used: seq<bool>) returns (renumber: seq<nat>, newToOld: seq<nat>, count: nat)
    requires |used| == CLASS_IDS
    ensures Renumbered(used, CLASS_IDS, renumber, newToOld, count)
  {
    renumber, newToOld, count := seq(CLASS_IDS, _ => 0), seq(CLASS_IDS, _ => 0), 0;
    var i: nat := 1;
    while i < CLASS_IDS
      invariant 1 <= i <= CLASS_IDS && Renumbered(used, i, renumber, newToOld, count)
    {
      if used[i] {
        count := count + 1;
        renumber := renumber[i := count];
        newToOld := newToOld[count := i];
      }
      i := i + 1;
    }
  }

  /** The classes that occur, but for 0. */
  ghost predicate UsedBy(used: seq<bool>, classes: seq<nat>, n: nat)
    requires n <= |classes|
  {
    && |used| == CLASS_IDS
    && (forall i :: 0 <= i < n && classes[i] > 0 ==> classes[i] < CLASS_IDS && used[classes[i]])
    && forall c :: 0 <= c < CLASS_IDS && used[c] ==> exists i :: 0 <= i < n && classes[i] == c > 0
  }

  method MarkUsed(classes: seq<nat>) returns (used: seq<bool>)
    requires forall i :: 0 <= i < |classes| ==> classes[i] < CLASS_IDS
    ensures UsedBy(used, classes, |classes|)
  {
    used := seq(CLASS_IDS, _ => false);
    var i: nat := 0;
    while i < |classes|
      invariant i <= |classes| && UsedBy(used, classes, i)
    {
      if classes[i] != 0 {
        used := used[classes[i] := true];
      }
      i := i + 1;
    }
  }

  // --- The mini class tables ---

  ghost predicate StrictlyAscending(cps: seq<nat>) {
    forall i, j :: 0 <= i < j < |cps| ==> cps[i] < cps[j]
  }

  /** The renumbered classes of the first `n` codepoints that have one. */
  ghost predicate MiniClasses(mini: seq<KernClassEntry>, cps: seq<nat>, classes: seq<nat>, renumber: seq<nat>, n: nat)
    requires n <= |cps| == |classes|
  {
    && |renumber| == CLASS_IDS && Ascending(mini)
    && (forall k :: 0 <= k < |mini| ==> HasSource(mini[k], cps, classes, renumber, n))
    && forall i :: 0 <= i < n && 0 < classes[i] < CLASS_IDS ==> KernClassEntry(cps[i], renumber[classes[i]]) in mini
  }

  ghost predicate MiniEntry(e: KernClassEntry, cps: seq<nat>, classes: seq<nat>, renumber: seq<nat>, n: nat, i: int)
    requires n <= |cps| == |classes|
  {
    0 <= i < n && 0 < classes[i] < |renumber| && e == KernClassEntry(cps[i], renumber[classes[i]])
  }

  ghost predicate HasSource(e: KernClassEntry, cps: seq<nat>, classes: seq<nat>, renumber: seq<nat>, n: nat)
    requires n <= |cps| == |classes|
  {
    exists i :: MiniEntry(e, cps, classes, renumber, n, i)
  }

  method BuildClasses(cps: seq<nat>, classes: seq<nat>, renumber: seq<nat>) returns (mini: seq<KernClassEntry>)
    requires StrictlyAscending(cps) && |classes| == |cps| && |renumber| == CLASS_IDS
    requires forall i :: 0 <= i < |classes| ==> classes[i] < CLASS_IDS && (classes[i] > 0 ==> cps[i] <= 0xFFFF)
    ensures MiniClasses(mini, cps, classes, renumber, |cps|)
  {
    mini := [];
    var i: nat := 0;
    while i < |cps|
      invariant i <= |cps| && MiniClasses(mini, cps, classes, renumber, i)
    {
      var cp := cps[i] % 0x1_0000;
      if classes[i] != 0 {
        MoreClasses(mini, cps, classes, renumber, i);
        mini := mini + [KernClassEntry(cp, renumber[classes[i]])];
      } else {
        SameClasses(mini, cps, classes, renumber, i);
      }
      i := i + 1;
    }
  }

  lemma {:induction false} SameClasses(mini: seq<KernClassEntry>, cps: seq<nat>, classes: seq<nat>,
                                       renumber: seq<nat>, n: nat)
    requires n < |cps| == |classes| && MiniClasses(mini, cps, classes, renumber, n) && classes[n] == 0
    ensures MiniClasses(mini, cps, classes, renumber, n + 1)
  {
    forall k | 0 <= k < |mini| ensures HasSource(mini[k], cps, classes, renumber, n + 1) {
      var i :| MiniEntry(mini[k], cps, classes, renumber, n, i);
      assert MiniEntry(mini[k], cps, classes, renumber, n + 1, i);
    }
  }

  lemma {:induction false} MoreClasses(mini: seq<KernClassEntry>, cps: seq<nat>, classes: seq<nat>,
                                       renumber: seq<nat>, n: nat)
    requires n < |cps| == |classes| && MiniClasses(mini, cps, classes, renumber, n) && StrictlyAscending(cps)
    requires 0 < classes[n] < CLASS_IDS
    ensures MiniClasses(mini + [KernClassEntry(cps[n], renumber[classes[n]])], cps, classes, renumber, n + 1)
  {
    var e := KernClassEntry(cps[n], renumber[classes[n]]);
    var more := mini + [e];
    forall k | 0 <= k < |mini| ensures mini[k].codepoint < cps[n] && HasSource(more[k], cps, classes, renumber, n + 1) {
      var i :| MiniEntry(mini[k], cps, classes, renumber, n, i);
      assert MiniEntry(more[k], cps, classes, renumber, n + 1, i);
    }
    assert MiniEntry(more[|mini|], cps, classes, renumber, n + 1, n);
    assert e in more && forall x :: x in mini ==> x in more;
  }

  /** The mini class of a page codepoint is its class renumbered; other codepoints have none. */
  lemma {:induction false} MiniClassOf(mini: seq<KernClassEntry>, cps: seq<nat>, classes: seq<nat>,
                                       renumber: seq<nat>, cp: nat)
    requires |cps| == |classes| && MiniClasses(mini, cps, classes, renumber, |cps|) && StrictlyAscending(cps)
    requires renumber[0] == 0 && forall i :: 0 <= i < |classes| ==> classes[i] < CLASS_IDS
    ensures forall i :: 0 <= i < |cps| && cps[i] == cp ==> ClassOf(mini, cp) == renumber[classes[i]]
    ensures cp !in cps ==> ClassOf(mini, cp) == 0
  {
    if e :| e in mini && e.codepoint == cp {
      var k :| 0 <= k < |mini| && mini[k] == e;
      ClassAt(mini, k);
      var i :| MiniEntry(mini[k], cps, classes, renumber, |cps|, i);
    } else {
      NoClass(mini, cp);
    }
  }

  // --- The mini matrix ---

  /** Row `k` of the mini matrix: the used columns of the full row of its class. */
  ghost predicate MiniRow(row: seq<int>, full: seq<int>, newToOld: seq<nat>, count: nat) {
    && |row| == count < |newToOld|
    && forall r :: 1 <= r <= count ==> 1 <= newToOld[r] <= |full| && row[r - 1] == full[newToOld[r] - 1]
  }

  method PickColumns(full: seq<int>, newToOld: seq<nat>, count: nat) returns (row: seq<int>)
    requires count < |newToOld| && forall r :: 1 <= r <= count ==> 1 <= newToOld[r] <= |full|
    ensures MiniRow(row, full, newToOld, count)
  {
    row := [];
    var r: nat := 1;
    while r <= count
      invariant 1 <= r <= count + 1 && |row| == r - 1
      invariant forall k :: 1 <= k < r ==> row[k - 1] == full[newToOld[k] - 1]
    {
      row := row + [full[newToOld[r] - 1]];
      r := r + 1;
    }
  }

  /** Reads the rows of the used left classes; a read may fail. */
  method ReadRows(card: Device, file: KernFile, newToOldLeft: seq<nat>, numLeft: nat, newToOldRight: seq<nat>,
                  numRight: nat)
    returns (ok: bool, rows: seq<seq<int>>)
    requires FileOk(file) && numLeft < |newToOldLeft| && numRight < |newToOldRight|
    requires forall k :: 1 <= k <= numLeft ==> 1 <= newToOldLeft[k] <= |file.rows|
    requires forall k :: 1 <= k <= numRight ==> 1 <= newToOldRight[k] <= file.columns
    modifies card`faults
    ensures card.faults >= old(card.faults) && (!ok ==> card.faults > old(card.faults))
    ensures ok ==> |rows| == numLeft && forall k :: 1 <= k <= numLeft ==>
      MiniRow(rows[k - 1], file.rows[newToOldLeft[k] - 1], newToOldRight, numRight)
  {
    rows := [];
    var newL: nat := 1;
    while newL <= numLeft
      invariant 1 <= newL <= numLeft + 1 && |rows| == newL - 1 && card.faults >= old(card.faults)
      invariant forall k :: 1 <= k < newL ==>
        MiniRow(rows[k - 1], file.rows[newToOldLeft[k] - 1], newToOldRight, numRight)
    {
      var readable := card.Try();
      if !readable { return false, rows; }
      var row := PickColumns(file.rows[newToOldLeft[newL] - 1], newToOldRight, numRight);
      rows := rows + [row];
      newL := newL + 1;
    }
    ok := true;
  }

  // --- The page's table ---

  const NO_KERN := KernTable([], [], [], 0)

  /** Kerning of page codepoints is the full table's; with any other codepoint there is none. */
  ghost predicate Refines(mini: KernTable, file: KernFile, cps: seq<nat>) {
    forall a, b :: KernOf(mini, a, b) == if a in cps && b in cps then KernOf(FullTable(file), a, b) else 0
  }

  /** What the page's classes are read as. */
  ghost predicate PageClasses(classes: seq<nat>, entries: seq<KernClassEntry>, count: nat, cps: seq<nat>) {
    && |classes| == |cps|
    && forall i :: 0 <= i < |cps| ==> classes[i] == ClassOf(ClampedTable(entries, count), cps[i])
  }

  lemma {:induction false} PageClassesWithin(classes: seq<nat>, entries: seq<KernClassEntry>, count: nat, cps: seq<nat>)
    requires PageClasses(classes, entries, count, cps)
    requires forall i :: 0 <= i < |entries| ==> entries[i].codepoint <= 0xFFFF
    ensures forall i :: 0 <= i < |cps| ==> classes[i] <= count && (classes[i] > 0 ==> cps[i] <= 0xFFFF)
  {
    var table := ClampedTable(entries, count);
    forall i | 0 <= i < |cps| ensures classes[i] <= count && (classes[i] > 0 ==> cps[i] <= 0xFFFF) {
      ClassBound(table, count, cps[i]);
      if cps[i] > 0xFFFF {
        NoClass(table, cps[i]);
      }
    }
  }

  /** The side of a mini table: its classes stand for the file's, renumbered. */
  ghost predicate Side(mini: seq<KernClassEntry>, entries: seq<KernClassEntry>, count: nat, cps: seq<nat>,
                       renumber: seq<nat>, newToOld: seq<nat>, used: nat) {
    && |renumber| == |newToOld| == CLASS_IDS
    && forall cp :: var c := ClassOf(mini, cp);
                    if cp in cps && ClassOf(ClampedTable(entries, count), cp) > 0
                    then 1 <= c <= used < CLASS_IDS && newToOld[c] == ClassOf(ClampedTable(entries, count), cp)
                    else c == 0
  }

  lemma {:induction false} SideOk(mini: seq<KernClassEntry>, entries: seq<KernClassEntry>, count: nat, cps: seq<nat>,
                                  classes: seq<nat>, used: seq<bool>, renumber: seq<nat>, newToOld: seq<nat>, n: nat)
    requires StrictlyAscending(cps) && PageClasses(classes, entries, count, cps) && UsedBy(used, classes, |classes|)
    requires Renumbered(used, CLASS_IDS, renumber, newToOld, n) && MiniClasses(mini, cps, classes, renumber, |cps|)
    requires forall i :: 0 <= i < |classes| ==> classes[i] < CLASS_IDS
    ensures Side(mini, entries, count, cps, renumber, newToOld, n)
  {
    forall cp: nat ensures var c, full := ClassOf(mini, cp), ClassOf(ClampedTable(entries, count), cp);
                           if cp in cps && full > 0 then 1 <= c <= n < CLASS_IDS && newToOld[c] == full else c == 0
    {
      MiniClassOf(mini, cps, classes, renumber, cp);
      if cp in cps {
        var i :| 0 <= i < |cps| && cps[i] == cp;
      }
    }
  }

  lemma {:induction false} MiniRefines(mini: KernTable, file: KernFile, cps: seq<nat>, newToOldLeft: seq<nat>,
                                       numLeft: nat, newToOldRight: seq<nat>, numRight: nat, leftNumbers: seq<nat>,
                                       rightNumbers: seq<nat>)
    requires FileOk(file) && |mini.rows| == numLeft < |newToOldLeft| && numRight < |newToOldRight|
    requires Side(mini.left, file.left, |file.rows|, cps, leftNumbers, newToOldLeft, numLeft)
    requires Side(mini.right, file.right, file.columns, cps, rightNumbers, newToOldRight, numRight)
    requires forall k :: 1 <= k <= numLeft ==> 1 <= newToOldLeft[k] <= |file.rows|
    requires forall k :: 1 <= k <= numLeft ==>
      MiniRow(mini.rows[k - 1], file.rows[newToOldLeft[k] - 1], newToOldRight, numRight)
    ensures Refines(mini, file, cps)
  {
    var full := FullTable(file);
    forall a: nat, b: nat ensures KernOf(mini, a, b) == if a in cps && b in cps then KernOf(full, a, b) else 0 {
      var lc, rc := ClassOf(mini.left, a), ClassOf(mini.right, b);
      ClassBound(full.left, |file.rows|, a);
      ClassBound(full.right, file.columns, b);
      if lc > 0 && rc > 0 {
        assert MiniRow(mini.rows[lc - 1], file.rows[newToOldLeft[lc] - 1], newToOldRight, numRight);
      }
    }
  }

  /** Without a class on one side no pair of the page kerns. */
  lemma {:induction false} NothingKerns(file: KernFile, cps: seq<nat>, leftClasses: seq<nat>, rightClasses: seq<nat>)
    requires FileOk(file)
    requires |file.left| == 0 || |file.right| == 0 || |cps| == 0
      || (PageClasses(leftClasses, file.left, |file.rows|, cps) && forall i :: 0 <= i < |cps| ==> leftClasses[i] == 0)
      || (PageClasses(rightClasses, file.right, file.columns, cps)
          && forall i :: 0 <= i < |cps| ==> rightClasses[i] == 0)
    ensures Refines(NO_KERN, file, cps)
  {
    var full := FullTable(file);
    forall a: nat, b: nat ensures KernOf(NO_KERN, a, b) == if a in cps && b in cps then KernOf(full, a, b) else 0 {
      if a in cps && b in cps {
        var i :| 0 <= i < |cps| && cps[i] == a;
        var j :| 0 <= j < |cps| && cps[j] == b;
      }
    }
  }

  lemma {:induction false} UsedNumbered(used: seq<bool>, classes: seq<nat>, renumber: seq<nat>, newToOld: seq<nat>,
                                        n: nat)
    requires UsedBy(used, classes, |classes|) && Renumbered(used, CLASS_IDS, renumber, newToOld, n)
    ensures forall i :: 0 <= i < |classes| && classes[i] > 0 ==> n > 0
  {
    forall i | 0 <= i < |classes| ensures classes[i] > 0 ==> n > 0 {
      assert classes[i] > 0 ==> used[classes[i]];
    }
  }

  lemma {:induction false} OldWithin(used: seq<bool>, classes: seq<nat>, renumber: seq<nat>, newToOld: seq<nat>,
                                     n: nat, count: nat)
    requires UsedBy(used, classes, |classes|) && Renumbered(used, CLASS_IDS, renumber, newToOld, n)
    requires forall i :: 0 <= i < |classes| ==> classes[i] <= count
    ensures forall k :: 1 <= k <= n ==> 1 <= newToOld[k] <= count
  {
    forall k | 1 <= k <= n ensures 1 <= newToOld[k] <= count {
      assert used[newToOld[k]];
    }
  }

  /** The kern state of a style: its block indices, and the mini table of the current page. */
  class StyleKern {
    const card: Device
    const file: KernFile
    /** None when there was no memory for it. */
    var leftIndex: Option<seq<nat>>
    var rightIndex: Option<seq<nat>>
    var kernBlockIndexReady: bool
    var mini: KernTable

    ghost predicate Valid()
      reads this
    {
      && FileOk(file) && (leftIndex.Some? <==> rightIndex.Some?)
      && (leftIndex.Some? ==> |leftIndex.value| == Blocks(|file.left|) + 1)
      && (rightIndex.Some? ==> |rightIndex.value| == Blocks(|file.right|) + 1)
      && (kernBlockIndexReady ==>
            leftIndex.Some? && IndexOf(leftIndex.value, file.left) && IndexOf(rightIndex.value, file.right))
    }

    constructor (card: Device, file: KernFile, memory: bool)
      requires FileOk(file)
      ensures Valid() && this.card == card && this.file == file && mini == NO_KERN
    {
      this.card, this.file := card, file;
      leftIndex := if memory then Some(seq(Blocks(|file.left|) + 1, _ => 0)) else None;
      rightIndex := if memory then Some(seq(Blocks(|file.right|) + 1, _ => 0)) else None;
      kernBlockIndexReady, mini := false, NO_KERN;
    }

    method Free()
      requires Valid()
      modifies this`mini
      ensures Valid() && mini == NO_KERN
    {
      mini := NO_KERN;
    }

    /** Reads the classes of both sides; the block indices are complete once both were read. */
    method ReadClasses(cps: seq<nat>) returns (ok: bool, leftClasses: seq<nat>, rightClasses: seq<nat>)
      requires Valid() && StrictlyAscending(cps) && |file.left| > 0 && |file.right| > 0
      modifies this`leftIndex, this`rightIndex, this`kernBlockIndexReady, card`faults
      ensures Valid() && card.faults >= old(card.faults) && (!ok ==> card.faults > old(card.faults))
      ensures ok ==>
        && PageClasses(leftClasses, file.left, |file.rows|, cps)
        && PageClasses(rightClasses, file.right, file.columns, cps)
        && (kernBlockIndexReady <==> leftIndex.Some?)
    {
      var index;
      ok, leftClasses, index := ReadKernClasses(card, file.left, |file.rows|, cps, leftIndex, kernBlockIndexReady);
      leftIndex, rightClasses := index, [];
      if !ok { return; }
      ghost var complete := leftIndex;
      ok, rightClasses, index := ReadKernClasses(card, file.right, file.columns, cps, rightIndex, kernBlockIndexReady);
      rightIndex := index;
      if !ok { return; }
      kernBlockIndexReady := leftIndex.Some?;
      ClassesRead(leftClasses, file.left, |file.rows|, cps);
      ClassesRead(rightClasses, file.right, file.columns, cps);
    }

    /** Builds the mini table for a page; a failure leaves the page without kerning. */
    method Build(cps: seq<nat>) returns (ok: bool)
      requires Valid() && StrictlyAscending(cps)
      modifies this, card`faults
      ensures Valid() && card.faults >= old(card.faults)
      ensures if ok then Refines(mini, file, cps) else mini == NO_KERN && card.faults > old(card.faults)
    {
      mini := NO_KERN;
      if |file.left| == 0 || |file.right| == 0 || |cps| == 0 {
        NothingKerns(file, cps, [], []);
        return true;
      }
      var opens := card.Try();
      if !opens { return false; }
      var memory := card.Try();
      if !memory { return false; }
      var leftClasses, rightClasses;
      ok, leftClasses, rightClasses := ReadClasses(cps);
      if !ok { return; }
      ok := BuildTable(cps, leftClasses, rightClasses);
    }

    method BuildTable(cps: seq<nat>, leftClasses: seq<nat>, rightClasses: seq<nat>) returns (ok: bool)
      requires Valid() && StrictlyAscending(cps) && mini == NO_KERN
      requires PageClasses(leftClasses, file.left, |file.rows|, cps)
      requires PageClasses(rightClasses, file.right, file.columns, cps)
      modifies this`mini, card`faults
      ensures card.faults >= old(card.faults)
      ensures if ok then Refines(mini, file, cps) else mini == NO_KERN && card.faults > old(card.faults)
    {
      PageClassesWithin(leftClasses, file.left, |file.rows|, cps);
      PageClassesWithin(rightClasses, file.right, file.columns, cps);
      var usedLeft := MarkUsed(leftClasses);
      var usedRight := MarkUsed(rightClasses);
      var leftRenumber, newToOldLeft, numLeft := Renumber(usedLeft);
      var rightRenumber, newToOldRight, numRight := Renumber(usedRight);
      if numLeft == 0 || numRight == 0 {
        UsedNumbered(usedLeft, leftClasses, leftRenumber, newToOldLeft, numLeft);
        UsedNumbered(usedRight, rightClasses, rightRenumber, newToOldRight, numRight);
        NothingKerns(file, cps, leftClasses, rightClasses);
        return true;
      }
      var memory := card.Try();
      if !memory { return false; }
      var left := BuildClasses(cps, leftClasses, leftRenumber);
      var right := BuildClasses(cps, rightClasses, rightRenumber);
      OldWithin(usedLeft, leftClasses, leftRenumber, newToOldLeft, numLeft, |file.rows|);
      OldWithin(usedRight, rightClasses, rightRenumber, newToOldRight, numRight, file.columns);
      var rows;
      ok, rows := ReadRows(card, file, newToOldLeft, numLeft, newToOldRight, numRight);
      if !ok { return; }
      mini := KernTable(left, right, rows, numRight);
      SideOk(left, file.left, |file.rows|, cps, leftClasses, usedLeft, leftRenumber, newToOldLeft, numLeft);
      SideOk(right, file.right, file.columns, cps, rightClasses, usedRight, rightRenumber, newToOldRight, numRight);
      MiniRefines(mini, file, cps, newToOldLeft, numLeft, newToOldRight, numRight, leftRenumber, rightRenumber);
    }
  }

  lemma {:induction false} ClassesRead(classes: seq<nat>, entries: seq<KernClassEntry>, count: nat, cps: seq<nat>)
    requires Ascending(entries) && |classes| == |cps|
    requires forall i :: 0 <= i < |cps| ==> classes[i] == ClassIn(entries, count, |entries|, cps[i])
    ensures PageClasses(classes, entries, count, cps)
  {
    assert entries[..|entries|] == entries;
    forall i | 0 <= i < |cps| ensures classes[i] == ClassOf(ClampedTable(entries, count), cps[i]) {
      ClassInIs(entries, count, |entries|, cps[i]);
    }
  }
}
