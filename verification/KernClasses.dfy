/** Reading the classes of a page's codepoints from the class table on the card, block by block
    (readKernClasses in lib/EpdFont/SdCardFont.cpp). */
module KernClasses {
  import opened Bytes
  import opened Card
  import opened Kerning

  const KERN_CLASS_BLOCK := 64

  function Blocks(entryCount: nat): nat {
    (entryCount + KERN_CLASS_BLOCK - 1) / KERN_CLASS_BLOCK
  }

  /** First entry past block `b - 1`. */
  function BlockStart(n: nat, b: nat): (s: nat)
    ensures s <= n
  {
    if b * KERN_CLASS_BLOCK < n then b * KERN_CLASS_BLOCK else n
  }

  /** A class past the matrix counts as none. */
  function Clamped(e: KernClassEntry, classCount: nat): nat {
    if e.classId <= classCount then e.classId else 0
  }

  function ClampedTable(entries: seq<KernClassEntry>, classCount: nat): (r: seq<KernClassEntry>)
    ensures |r| == |entries|
  {
    seq(|entries|, i requires 0 <= i < |entries| => KernClassEntry(entries[i].codepoint,
                                                                   Clamped(entries[i], classCount)))
  }

  /** Class of a codepoint in the first `n` entries. */
  function ClassIn(entries: seq<KernClassEntry>, classCount: nat, n: nat, cp: nat): nat
    requires n <= |entries|
  {
    if n == 0 then 0
    else if entries[n - 1].codepoint == cp then Clamped(entries[n - 1], classCount)
    else ClassIn(entries, classCount, n - 1, cp)
  }

  ghost predicate NonDecreasing(cps: seq<nat>) {
    forall i, j :: 0 <= i < j < |cps| ==> cps[i] <= cps[j]
  }

  /** The classes found so far, and that the finished codepoints lie below everything still to come. */
  ghost predicate Read(entries: seq<KernClassEntry>, classCount: nat, cps: seq<nat>, classes: seq<nat>, done: nat,
                       next: nat) {
    && done <= |entries| && next <= |cps| && |classes| == |cps|
    && (forall i :: 0 <= i < |cps| ==> classes[i] == ClassIn(entries, classCount, done, cps[i]))
    && forall i, k :: 0 <= i < next && done <= k < |entries| ==> cps[i] < entries[k].codepoint
  }

  lemma {:induction false} ClassInSkips(entries: seq<KernClassEntry>, classCount: nat, m: nat, n: nat, cp: nat)
    requires m <= n <= |entries| && forall k :: m <= k < n ==> entries[k].codepoint != cp
    ensures ClassIn(entries, classCount, n, cp) == ClassIn(entries, classCount, m, cp)
    decreases n
  {
    if m < n {
      ClassInSkips(entries, classCount, m, n - 1, cp);
    }
  }

  /** Entries that no page codepoint matches can be skipped. */
  lemma {:induction false} ReadSkips(entries: seq<KernClassEntry>, classCount: nat, cps: seq<nat>, classes: seq<nat>,
                                     done: nat, next: nat, more: nat, far: nat)
    requires Ascending(entries) && NonDecreasing(cps) && Read(entries, classCount, cps, classes, done, next)
    requires done <= more <= |entries| && next <= far <= |cps|
    requires forall i :: next <= i < far ==> (done < |entries| ==> cps[i] < entries[done].codepoint)
    requires forall i, k :: far <= i < |cps| && done <= k < more ==> cps[i] > entries[k].codepoint
    ensures Read(entries, classCount, cps, classes, more, far)
  {
    forall i | 0 <= i < |cps| ensures classes[i] == ClassIn(entries, classCount, more, cps[i]) {
      ClassInSkips(entries, classCount, done, more, cps[i]);
    }
  }

  // --- One block ---

  method SkipBelow(cps: seq<nat>, start: nat, bound: nat) returns (next: nat)
    requires start <= |cps|
    ensures start <= next <= |cps| && forall i :: start <= i < next ==> cps[i] < bound
    ensures next < |cps| ==> cps[next] >= bound
  {
    next := start;
    while next < |cps| && cps[next] < bound
      invariant start <= next <= |cps| && forall i :: start <= i < next ==> cps[i] < bound
    {
      next := next + 1;
    }
  }

  /** Stores the class of every copy of `cp` from `next` on. */
  method StoreClass(cps: seq<nat>, classes: seq<nat>, next: nat, cp: nat, classId: nat) returns (r: seq<nat>)
    requires |classes| == |cps| && next <= |cps| && NonDecreasing(cps)
    requires forall i :: 0 <= i < next ==> cps[i] < cp
    requires next < |cps| ==> cps[next] >= cp
    ensures |r| == |cps| && forall i :: 0 <= i < |cps| ==> r[i] == if cps[i] == cp then classId else classes[i]
  {
    r := classes;
    var j := next;
    while j < |cps| && cps[j] == cp
      invariant next <= j <= |cps| && |r| == |cps|
      invariant forall i :: next <= i < j ==> cps[i] == cp && r[i] == classId
      invariant forall i :: 0 <= i < |cps| && !(next <= i < j) ==> r[i] == classes[i]
    {
      r := r[j := classId];
      j := j + 1;
    }
  }

  method ReadEntry(entries: seq<KernClassEntry>, k: nat, classCount: nat, cps: seq<nat>, classes: seq<nat>, start: nat)
    returns (r: seq<nat>, next: nat)
    requires Ascending(entries) && NonDecreasing(cps) && k < |entries|
    requires Read(entries, classCount, cps, classes, k, start)
    ensures Read(entries, classCount, cps, r, k + 1, next)
  {
    var cp := entries[k].codepoint;
    var classId := if entries[k].classId <= classCount then entries[k].classId else 0;
    next := SkipBelow(cps, start, cp);
    r := StoreClass(cps, classes, next, cp, classId);
  }

  /** The entries of one block, until the page's codepoints run out. */
  method ReadBlock(entries: seq<KernClassEntry>, begin: nat, end: nat, classCount: nat, cps: seq<nat>,
                   classes: seq<nat>, start: nat)
    returns (r: seq<nat>, next: nat)
    requires Ascending(entries) && NonDecreasing(cps) && begin <= end <= |entries|
    requires Read(entries, classCount, cps, classes, begin, start)
    ensures Read(entries, classCount, cps, r, end, next)
  {
    r, next := classes, start;
    var k := begin;
    while k < end && next < |cps|
      invariant begin <= k <= end && Read(entries, classCount, cps, r, k, next)
    {
      r, next := ReadEntry(entries, k, classCount, cps, r, next);
      k := k + 1;
    }
    ReadSkips(entries, classCount, cps, r, k, next, end, next);
  }

  // --- The whole table ---

  /** The block index: first codepoint of each block, then the last codepoint of all. */
  ghost predicate IndexUpTo(index: seq<nat>, entries: seq<KernClassEntry>, b: nat) {
    var blocks := Blocks(|entries|);
    && |index| == blocks + 1 && b <= blocks
    && (forall k :: 0 <= k < b ==>
          k * KERN_CLASS_BLOCK < |entries| && index[k] == entries[k * KERN_CLASS_BLOCK].codepoint)
    && (0 < b == blocks ==> index[blocks] == entries[|entries| - 1].codepoint)
  }

  ghost predicate IndexOf(index: seq<nat>, entries: seq<KernClassEntry>) {
    |entries| > 0 && IndexUpTo(index, entries, Blocks(|entries|))
  }

  lemma {:induction false} BlockBounds(n: nat, b: nat)
    requires b < Blocks(n)
    ensures b * KERN_CLASS_BLOCK < n && BlockStart(n, b) == b * KERN_CLASS_BLOCK < BlockStart(n, b + 1) <= n
    ensures b + 1 < Blocks(n) ==> BlockStart(n, b + 1) == (b + 1) * KERN_CLASS_BLOCK < n
    ensures b + 1 == Blocks(n) ==> BlockStart(n, b + 1) == n
  {
  }

  lemma {:induction false} ReadAll(entries: seq<KernClassEntry>, classCount: nat, cps: seq<nat>, classes: seq<nat>,
                                   done: nat)
    requires Ascending(entries) && NonDecreasing(cps) && Read(entries, classCount, cps, classes, done, |cps|)
    ensures Read(entries, classCount, cps, classes, |entries|, |cps|)
  {
    ReadSkips(entries, classCount, cps, classes, done, |cps|, |entries|, |cps|);
  }

  /** Uses a complete index to find the next block that holds a page codepoint. */
  method Consult(entries: seq<KernClassEntry>, classCount: nat, cps: seq<nat>, classes: seq<nat>, index: seq<nat>,
                 b: nat, start: nat)
    returns (next: nat, verdict: Verdict)
    requires Ascending(entries) && NonDecreasing(cps) && IndexOf(index, entries) && b < Blocks(|entries|)
    requires Read(entries, classCount, cps, classes, BlockStart(|entries|, b), start)
    ensures start <= next && Read(entries, classCount, cps, classes, BlockStart(|entries|, b), next)
    ensures verdict.Skip? ==> Read(entries, classCount, cps, classes, BlockStart(|entries|, b + 1), next)
    ensures verdict.Stop? ==> Read(entries, classCount, cps, classes, |entries|, next)
  {
    var n, blocks := |entries|, Blocks(|entries|);
    BlockBounds(n, b);
    next := SkipBelow(cps, start, index[b]);
    ReadSkips(entries, classCount, cps, classes, BlockStart(n, b), start, BlockStart(n, b), next);
    var end := if b + 1 < blocks then index[b + 1] else index[blocks] + 1;
    if next == |cps| || cps[next] >= index[blocks] + 1 {
      ReadSkips(entries, classCount, cps, classes, BlockStart(n, b), next, n, next);
      return next, Stop;
    }
    if cps[next] >= end {
      ReadSkips(entries, classCount, cps, classes, BlockStart(n, b), next, BlockStart(n, b + 1), next);
      return next, Skip;
    }
    return next, ReadIt;
  }

  datatype Verdict = ReadIt | Skip | Stop

  /** The class of each page codepoint, reading only the blocks needed once the index is complete. Without one every
      block is read, and the index (if there is memory for it) is filled on the way. */
  method ReadKernClasses(card: Device, entries: seq<KernClassEntry>, classCount: nat, cps: seq<nat>,
                         index: Option<seq<nat>>, indexReady: bool)
    returns (ok: bool, classes: seq<nat>, newIndex: Option<seq<nat>>)
    requires Ascending(entries) && NonDecreasing(cps) && |entries| > 0
    requires index.Some? ==> |index.value| == Blocks(|entries|) + 1
    requires index.Some? && indexReady ==> IndexOf(index.value, entries)
    modifies card`faults
    ensures card.faults >= old(card.faults) && (!ok ==> card.faults > old(card.faults))
    ensures ok ==> |classes| == |cps| && forall i :: 0 <= i < |cps| ==>
      classes[i] == ClassIn(entries, classCount, |entries|, cps[i])
    ensures newIndex.Some? <==> index.Some?
    ensures newIndex.Some? ==> |newIndex.value| == Blocks(|entries|) + 1
    ensures newIndex.Some? && indexReady ==> newIndex == index
    ensures ok && newIndex.Some? ==> IndexOf(newIndex.value, entries)
  {
    classes, newIndex := seq(|cps|, _ => 0), index;
    var n: nat, blocks: nat, next: nat, b: nat := |entries|, Blocks(|entries|), 0, 0;
    while b < blocks && (next < |cps| || (index.Some? && !indexReady))
      invariant b <= blocks && Read(entries, classCount, cps, classes, BlockStart(n, b), next)
      invariant card.faults >= old(card.faults)
      invariant newIndex.Some? <==> index.Some?
      invariant newIndex.Some? ==> if indexReady then newIndex == index else IndexUpTo(newIndex.value, entries, b)
    {
      BlockBounds(n, b);
      if index.Some? && indexReady {
        var verdict;
        next, verdict := Consult(entries, classCount, cps, classes, index.value, b, next);
        if verdict.Stop? { return true, classes, newIndex; }
        if verdict.Skip? {
          b := b + 1;
          continue;
        }
      }
      var readable := card.Try();
      if !readable { return false, classes, newIndex; }
      if index.Some? && !indexReady {
        newIndex := Some(newIndex.value[b := entries[BlockStart(n, b)].codepoint]);
        if b + 1 == blocks {
          newIndex := Some(newIndex.value[blocks := entries[BlockStart(n, b + 1) - 1].codepoint]);
        }
      }
      classes, next := ReadBlock(entries, BlockStart(n, b), BlockStart(n, b + 1), classCount, cps, classes, next);
      b := b + 1;
    }
    if b < blocks {
      ReadAll(entries, classCount, cps, classes, BlockStart(n, b));
    }
    ok := true;
  }

  /** The plain lookup in the whole table gives the same class. */
  lemma {:induction false} ClassInIs(entries: seq<KernClassEntry>, classCount: nat, n: nat, cp: nat)
    requires Ascending(entries) && n <= |entries|
    ensures ClassIn(entries, classCount, n, cp) == ClassOf(ClampedTable(entries[..n], classCount), cp)
  {
    var table := ClampedTable(entries[..n], classCount);
    if exists k :: 0 <= k < n && entries[k].codepoint == cp {
      var k :| 0 <= k < n && entries[k].codepoint == cp;
      assert table[k] == KernClassEntry(cp, Clamped(entries[k], classCount));
      ClassAt(table, k);
      ClassInSkips(entries, classCount, k + 1, n, cp);
    } else {
      NoClass(table, cp);
      ClassInSkips(entries, classCount, 0, n, cp);
    }
  }
}
