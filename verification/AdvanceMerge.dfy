/** Merging sorted advance entries from the back, in place and capped (SdCardFont::mergeIntoAdvanceTable). */
module AdvanceMerge {
  import opened Sorting

  const ADVANCE_CACHE_LIMIT := 768

  datatype AdvanceEntry = AdvanceEntry(codepoint: nat, advanceX: nat)

  ghost predicate InOrder(s: seq<AdvanceEntry>) {
    forall i, j :: 0 <= i < j < |s| ==> s[i].codepoint < s[j].codepoint
  }

  function KeysOf(s: seq<AdvanceEntry>): set<nat> {
    set e | e in s :: e.codepoint
  }

  /** The sorted merge, largest entry first. */
  function Merge(a: seq<AdvanceEntry>, b: seq<AdvanceEntry>): (m: seq<AdvanceEntry>)
    ensures |m| == |a| + |b|
    decreases |a| + |b|
  {
    if b == [] then a
    else if a == [] || b[|b| - 1].codepoint >= a[|a| - 1].codepoint then Merge(a, b[..|b| - 1]) + [b[|b| - 1]]
    else Merge(a[..|a| - 1], b) + [a[|a| - 1]]
  }

  lemma {:induction false} MergeHas(a: seq<AdvanceEntry>, b: seq<AdvanceEntry>, e: AdvanceEntry)
    ensures e in Merge(a, b) <==> e in a || e in b
    decreases |a| + |b|
  {
    if b == [] {
    } else if a == [] || b[|b| - 1].codepoint >= a[|a| - 1].codepoint {
      MergeHas(a, b[..|b| - 1], e);
      assert b == b[..|b| - 1] + [b[|b| - 1]];
    } else {
      MergeHas(a[..|a| - 1], b, e);
      assert a == a[..|a| - 1] + [a[|a| - 1]];
    }
  }

  ghost predicate Apart(a: seq<AdvanceEntry>, b: seq<AdvanceEntry>) {
    forall i, j :: 0 <= i < |a| && 0 <= j < |b| ==> a[i].codepoint != b[j].codepoint
  }

  lemma {:induction false} MergeInOrder(a: seq<AdvanceEntry>, b: seq<AdvanceEntry>)
    requires InOrder(a) && InOrder(b) && Apart(a, b)
    ensures InOrder(Merge(a, b))
    decreases |a| + |b|
  {
    if b == [] {
    } else if a == [] || b[|b| - 1].codepoint >= a[|a| - 1].codepoint {
      var init, last := Merge(a, b[..|b| - 1]), b[|b| - 1];
      MergeInOrder(a, b[..|b| - 1]);
      forall i | 0 <= i < |init| ensures init[i].codepoint < last.codepoint {
        MergeHas(a, b[..|b| - 1], init[i]);
      }
    } else {
      var init, last := Merge(a[..|a| - 1], b), a[|a| - 1];
      MergeInOrder(a[..|a| - 1], b);
      forall i | 0 <= i < |init| ensures init[i].codepoint < last.codepoint {
        MergeHas(a[..|a| - 1], b, init[i]);
      }
    }
  }

  lemma {:induction false} MergedKeys(a: seq<AdvanceEntry>, b: seq<AdvanceEntry>)
    ensures KeysOf(Merge(a, b)) == KeysOf(a) + KeysOf(b)
  {
    forall e: AdvanceEntry ensures e in Merge(a, b) <==> e in a || e in b {
      MergeHas(a, b, e);
    }
  }

  lemma {:induction false} KeysCount(s: seq<AdvanceEntry>)
    requires InOrder(s)
    ensures |KeysOf(s)| == |s|
  {
    if s != [] {
      var init := s[..|s| - 1];
      KeysCount(init);
      assert s == init + [s[|s| - 1]];
      assert KeysOf(s) == KeysOf(init) + {s[|s| - 1].codepoint};
    }
  }

  /** Cutting a sorted list off keeps its lowest. */
  lemma {:induction false} PrefixIsLowest(s: seq<AdvanceEntry>, n: nat)
    requires InOrder(s)
    ensures IsLowest(KeysOf(s[..if n < |s| then n else |s|]), KeysOf(s), n)
  {
    var k := if n < |s| then n else |s|;
    KeysCount(s);
    KeysCount(s[..k]);
    assert s[..k] + s[k..] == s;
  }

  function Cut(s: seq<AdvanceEntry>, n: nat): seq<AdvanceEntry> {
    if n < |s| then s[..n] else s
  }

  lemma {:induction false} CutKeepsLowest(s: seq<AdvanceEntry>, n: nat, all: set<nat>)
    requires InOrder(s) && KeysOf(s) == all
    ensures InOrder(Cut(s, n)) && IsLowest(KeysOf(Cut(s, n)), all, n)
  {
    PrefixIsLowest(s, n);
    assert s[..|s|] == s;
  }

  /** The merge keeps the lowest entries of both. */
  lemma {:induction false} MergeKeepsLowest(a: seq<AdvanceEntry>, b: seq<AdvanceEntry>, n: nat)
    requires InOrder(a) && InOrder(b) && Apart(a, b)
    ensures InOrder(Cut(Merge(a, b), n)) && IsLowest(KeysOf(Cut(Merge(a, b), n)), KeysOf(a) + KeysOf(b), n)
    ensures forall e :: e in Cut(Merge(a, b), n) ==> e in a || e in b
  {
    MergeInOrder(a, b);
    MergedKeys(a, b);
    CutKeepsLowest(Merge(a, b), n, KeysOf(a) + KeysOf(b));
    PrefixHas(a, b, n);
  }

  lemma {:induction false} PrefixHas(a: seq<AdvanceEntry>, b: seq<AdvanceEntry>, n: nat)
    ensures forall e :: e in Cut(Merge(a, b), n) ==> e in a || e in b
  {
    forall e | e in Cut(Merge(a, b), n) ensures e in a || e in b {
      MergeHas(a, b, e);
    }
  }

  // --- In place ---

  /** The `k` smallest entries still lie unmerged in the table and in `new`; the larger ones are placed from `k` on,
      but for those past the cap. */
  ghost predicate Merging(table: seq<AdvanceEntry>, was: seq<AdvanceEntry>, added: seq<AdvanceEntry>, i: nat, j: nat,
                          done: seq<AdvanceEntry>, cap: nat)
  {
    && i <= |was| <= |table| && j <= |added| && cap <= |table| && table[..i] == was[..i]
    && Merge(was, added) == Merge(was[..i], added[..j]) + done
    && forall n :: 0 <= n < |done| && i + j + n < cap ==> table[i + j + n] == done[n]
  }

  /** The table after the next largest entry went to position `k`, unless that is past the cap. */
  function Put(table: seq<AdvanceEntry>, entry: AdvanceEntry, k: nat, cap: nat): seq<AdvanceEntry>
    requires cap <= |table|
  {
    if k < cap then table[k := entry] else table
  }

  lemma {:induction false} StillPlaced(table: seq<AdvanceEntry>, done: seq<AdvanceEntry>, entry: AdvanceEntry, k: nat,
                                       cap: nat)
    requires cap <= |table| && forall n :: 0 <= n < |done| && k + 1 + n < cap ==> table[k + 1 + n] == done[n]
    ensures forall n :: 0 <= n < |[entry] + done| && k + n < cap ==>
      Put(table, entry, k, cap)[k + n] == ([entry] + done)[n]
  {
    forall n | 0 <= n < |[entry] + done| && k + n < cap
      ensures Put(table, entry, k, cap)[k + n] == ([entry] + done)[n]
    {
      assert n > 0 ==> table[k + 1 + (n - 1)] == done[n - 1];
    }
  }

  lemma {:induction false} NothingPlaced(table: seq<AdvanceEntry>, was: seq<AdvanceEntry>, added: seq<AdvanceEntry>,
                                         cap: nat)
    requires |was| <= cap <= |table| && table[..|was|] == was
    ensures Merging(table, was, added, |was|, |added|, [], cap)
  {
    assert was[..|was|] == was && added[..|added|] == added;
  }

  /** What is still to be merged was not overwritten. */
  lemma {:induction false} Unread(table: seq<AdvanceEntry>, was: seq<AdvanceEntry>, added: seq<AdvanceEntry>, i: nat,
                                  j: nat, done: seq<AdvanceEntry>, cap: nat)
    requires Merging(table, was, added, i, j, done, cap)
    ensures i > 0 ==> table[i - 1] == was[i - 1]
  {
    assert i > 0 ==> table[i - 1] == table[..i][i - 1] == was[..i][i - 1];
  }

  lemma {:induction false} TakeNew(table: seq<AdvanceEntry>, was: seq<AdvanceEntry>, added: seq<AdvanceEntry>, i: nat,
                                   j: nat, done: seq<AdvanceEntry>, cap: nat)
    requires j > 0 && Merging(table, was, added, i, j, done, cap)
    requires i == 0 || added[j - 1].codepoint >= was[i - 1].codepoint
    ensures Merging(Put(table, added[j - 1], i + j - 1, cap), was, added, i, j - 1, [added[j - 1]] + done, cap)
  {
    assert added[..j][..j - 1] == added[..j - 1];
    StillPlaced(table, done, added[j - 1], i + j - 1, cap);
    assert Merge(was[..i], added[..j]) == Merge(was[..i], added[..j - 1]) + [added[j - 1]];
  }

  lemma {:induction false} TakeOld(table: seq<AdvanceEntry>, was: seq<AdvanceEntry>, added: seq<AdvanceEntry>, i: nat,
                                   j: nat, done: seq<AdvanceEntry>, cap: nat)
    requires j > 0 && i > 0 && Merging(table, was, added, i, j, done, cap)
    requires added[j - 1].codepoint < was[i - 1].codepoint
    ensures table[i - 1] == was[i - 1]
    ensures Merging(Put(table, was[i - 1], i + j - 1, cap), was, added, i - 1, j, [was[i - 1]] + done, cap)
  {
    assert table[i - 1] == table[..i][i - 1] == was[..i][i - 1];
    assert was[..i][..i - 1] == was[..i - 1] && table[..i][..i - 1] == table[..i - 1];
    StillPlaced(table, done, was[i - 1], i + j - 1, cap);
    assert Merge(was[..i], added[..j]) == Merge(was[..i - 1], added[..j]) + [was[i - 1]];
  }

  lemma {:induction false} Taken(table: seq<AdvanceEntry>, was: seq<AdvanceEntry>, added: seq<AdvanceEntry>, i: nat,
                                 j: nat, done: seq<AdvanceEntry>, cap: nat, takeNew: bool)
    requires j > 0 && Merging(table, was, added, i, j, done, cap)
    requires takeNew <==> i == 0 || added[j - 1].codepoint >= was[i - 1].codepoint
    ensures var entry := if takeNew then added[j - 1] else was[i - 1];
            Merging(Put(table, entry, i + j - 1, cap), was, added, if takeNew then i else i - 1,
                    if takeNew then j - 1 else j,
                    [entry] + done, cap)
  {
    if takeNew {
      TakeNew(table, was, added, i, j, done, cap);
    } else {
      TakeOld(table, was, added, i, j, done, cap);
    }
  }

  lemma {:induction false} Merged(table: seq<AdvanceEntry>, was: seq<AdvanceEntry>, added: seq<AdvanceEntry>, i: nat,
                                  done: seq<AdvanceEntry>, cap: nat)
    requires Merging(table, was, added, i, 0, done, cap) && i <= cap <= |was| + |added|
    ensures table[..cap] == Merge(was, added)[..cap]
  {
    assert added[..0] == [] && Merge(was, added) == was[..i] + done;
    forall n | 0 <= n < cap ensures table[n] == Merge(was, added)[n] {
      if n < i {
        assert table[n] == table[..i][n];
      } else {
        assert table[i + 0 + (n - i)] == done[n - i];
      }
    }
  }

  method Place(table: array<AdvanceEntry>, entry: AdvanceEntry, k: nat, drop: nat, cap: nat) returns (left: nat)
    requires cap <= table.Length && drop == if k + 1 > cap then k + 1 - cap else 0
    modifies table
    ensures table[..] == Put(old(table[..]), entry, k, cap) && left == if k > cap then k - cap else 0
  {
    if drop > 0 {
      return drop - 1;
    }
    table[k] := entry;
    return 0;
  }

  /** Moves the larger of the two last entries to its place. */
  method MoveLast(table: array<AdvanceEntry>, ghost was: seq<AdvanceEntry>, sortedNew: seq<AdvanceEntry>, i: nat,
                  j: nat, drop: nat, ghost done: seq<AdvanceEntry>, cap: nat)
    returns (newI: nat, newJ: nat, left: nat, ghost more: seq<AdvanceEntry>)
    requires j > 0 && cap <= table.Length && drop == (if i + j > cap then i + j - cap else 0)
    requires Merging(table[..], was, sortedNew, i, j, done, cap)
    modifies table
    ensures newI <= i && newJ <= j && newI + newJ == i + j - 1
    ensures left == if newI + newJ > cap then newI + newJ - cap else 0
    ensures Merging(table[..], was, sortedNew, newI, newJ, more, cap)
  {
    ghost var before := table[..];
    Unread(before, was, sortedNew, i, j, done, cap);
    var takeNew := i == 0 || sortedNew[j - 1].codepoint >= table[i - 1].codepoint;
    Taken(before, was, sortedNew, i, j, done, cap, takeNew);
    var entry := if takeNew then sortedNew[j - 1] else table[i - 1];
    newI, newJ, more := if takeNew then i else i - 1, if takeNew then j - 1 else j, [entry] + done;
    left := Place(table, entry, i + j - 1, drop, cap);
  }

  /** Entries past the cap are dropped, all others move at most once and are read before they are overwritten. */
  method MergeFromBack(table: array<AdvanceEntry>, oldSize: nat, sortedNew: seq<AdvanceEntry>, cap: nat)
    requires oldSize <= cap <= table.Length && cap <= oldSize + |sortedNew|
    modifies table
    ensures table[..cap] == Merge(old(table[..oldSize]), sortedNew)[..cap]
  {
    ghost var was: seq<AdvanceEntry>, done: seq<AdvanceEntry> := table[..oldSize], [];
    var i: nat, j: nat, k: nat := oldSize, |sortedNew|, oldSize + |sortedNew|;
    var drop: nat := k - cap;
    NothingPlaced(table[..], was, sortedNew, cap);
    while j > 0
      decreases k
      invariant 0 <= i <= oldSize && 0 <= j <= |sortedNew| && k == i + j
      invariant drop == if k > cap then k - cap else 0
      invariant Merging(table[..], was, sortedNew, i, j, done, cap)
    {
      i, j, drop, done := MoveLast(table, was, sortedNew, i, j, drop, done, cap);
      k := k - 1;
    }
    Merged(table[..], was, sortedNew, i, done, cap);
  }
}
