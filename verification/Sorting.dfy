/** Sorting by a key, as the library's sort does it, and small facts about sets and lists of numbers. */
module Sorting {

  predicate SortedBy<T>(s: seq<T>, key: T -> int) {
    forall i, j :: 0 <= i < j < |s| ==> key(s[i]) <= key(s[j])
  }

  function InsertBy<T>(s: seq<T>, x: T, key: T -> int): seq<T> {
    if s == [] || key(s[|s| - 1]) <= key(x) then s + [x] else InsertBy(s[..|s| - 1], x, key) + [s[|s| - 1]]
  }

  function SortBy<T>(s: seq<T>, key: T -> int): seq<T> {
    if s == [] then [] else InsertBy(SortBy(s[..|s| - 1], key), s[|s| - 1], key)
  }

  lemma {:induction false} InsertBySame<T>(s: seq<T>, x: T, key: T -> int)
    ensures multiset(InsertBy(s, x, key)) == multiset(s) + multiset{x} && |InsertBy(s, x, key)| == |s| + 1
  {
    if s != [] && key(s[|s| - 1]) > key(x) {
      InsertBySame(s[..|s| - 1], x, key);
      assert s == s[..|s| - 1] + [s[|s| - 1]];
    }
  }

  lemma {:induction false} InsertByOk<T>(s: seq<T>, x: T, key: T -> int)
    requires SortedBy(s, key)
    ensures SortedBy(InsertBy(s, x, key), key)
  {
    if s != [] && key(s[|s| - 1]) > key(x) {
      var init, last := s[..|s| - 1], s[|s| - 1];
      InsertByOk(init, x, key);
      var r := InsertBy(init, x, key);
      forall i | 0 <= i < |r| ensures key(r[i]) <= key(last) {
        InsertByHas(init, x, key, i);
      }
    }
  }

  lemma {:induction false} InsertByHas<T>(s: seq<T>, x: T, key: T -> int, i: nat)
    requires i < |InsertBy(s, x, key)|
    ensures InsertBy(s, x, key)[i] == x || exists j :: 0 <= j < |s| && s[j] == InsertBy(s, x, key)[i]
  {
    if s == [] || key(s[|s| - 1]) <= key(x) {
      if i < |s| {
        assert s[i] == InsertBy(s, x, key)[i];
      }
    } else if i < |InsertBy(s[..|s| - 1], x, key)| {
      InsertByHas(s[..|s| - 1], x, key, i);
    } else {
      assert s[|s| - 1] == InsertBy(s, x, key)[i];
    }
  }

  lemma {:induction false} SortByOk<T>(s: seq<T>, key: T -> int)
    ensures SortedBy(SortBy(s, key), key)
    ensures multiset(SortBy(s, key)) == multiset(s) && |SortBy(s, key)| == |s|
  {
    if s != [] {
      SortByOk(s[..|s| - 1], key);
      InsertByOk(SortBy(s[..|s| - 1], key), s[|s| - 1], key);
      InsertBySame(SortBy(s[..|s| - 1], key), s[|s| - 1], key);
      assert s == s[..|s| - 1] + [s[|s| - 1]];
    }
  }

  lemma {:induction false} SortByHas<T>(s: seq<T>, key: T -> int, x: T)
    ensures x in SortBy(s, key) <==> x in s
  {
    SortByOk(s, key);
    assert x in multiset(SortBy(s, key)) <==> x in multiset(s);
  }

  predicate DistinctBy<T>(s: seq<T>, key: T -> int) {
    forall i, j :: 0 <= i < j < |s| ==> key(s[i]) != key(s[j])
  }

  lemma {:induction false} InsertByDistinct<T>(s: seq<T>, x: T, key: T -> int, other: T -> int)
    requires DistinctBy(s, other) && forall i :: 0 <= i < |s| ==> other(s[i]) != other(x)
    ensures DistinctBy(InsertBy(s, x, key), other)
  {
    if s != [] && key(s[|s| - 1]) > key(x) {
      var init, r := s[..|s| - 1], InsertBy(s[..|s| - 1], x, key);
      InsertByDistinct(init, x, key, other);
      forall i | 0 <= i < |r| ensures other(r[i]) != other(s[|s| - 1]) {
        InsertByHas(init, x, key, i);
      }
    }
  }

  /** Sorting by one key keeps what differs in another apart. */
  lemma {:induction false} SortByDistinct<T>(s: seq<T>, key: T -> int, other: T -> int)
    requires DistinctBy(s, other)
    ensures DistinctBy(SortBy(s, key), other)
  {
    if s != [] {
      var init, last := s[..|s| - 1], s[|s| - 1];
      SortByDistinct(init, key, other);
      forall i | 0 <= i < |SortBy(init, key)| ensures other(SortBy(init, key)[i]) != other(last) {
        SortByHas(init, key, SortBy(init, key)[i]);
      }
      InsertByDistinct(SortBy(init, key), last, key, other);
    }
  }

  // --- Numbers ---

  predicate Distinct(s: seq<nat>) {
    forall i, j :: 0 <= i < j < |s| ==> s[i] != s[j]
  }

  predicate Ascends(s: seq<nat>) {
    forall i, j :: 0 <= i < j < |s| ==> s[i] < s[j]
  }

  function Elements(s: seq<nat>): set<nat> {
    set x | x in s
  }

  lemma {:induction false} ElementsCount(s: seq<nat>)
    requires Distinct(s)
    ensures |Elements(s)| == |s|
  {
    if s != [] {
      var init := s[..|s| - 1];
      ElementsCount(init);
      assert Elements(s) == Elements(init) + {s[|s| - 1]};
    }
  }

  lemma {:induction false} SubsetCount<T>(a: set<T>, b: set<T>)
    requires a <= b
    ensures |a| <= |b| && (|a| == |b| ==> a == b)
  {
    assert b == a + (b - a);
    assert |b| == |a| + |b - a|;
  }

  /** Distinct numbers, sorted, ascend. */
  lemma {:induction false} SortedAscends(s: seq<nat>)
    requires Distinct(s)
    ensures Ascends(SortBy(s, x => x)) && Elements(SortBy(s, x => x)) == Elements(s)
  {
    SortByOk(s, x => x);
    SortByDistinct(s, x => x, x => x);
    forall x: nat ensures x in SortBy(s, x => x) <==> x in s {
      SortByHas(s, x => x, x);
    }
  }

  // --- The lowest of a set ---

  /** `kept` are the `n` lowest of `all`, or all of them if they are no more. */
  ghost predicate IsLowest(kept: set<nat>, all: set<nat>, n: nat) {
    && kept <= all && |kept| == (if |all| <= n then |all| else n)
    && forall x, y :: x in kept && y in all && y !in kept ==> x < y
  }

  lemma {:induction false} LowestIsUnique(a: set<nat>, b: set<nat>, all: set<nat>, n: nat)
    requires IsLowest(a, all, n) && IsLowest(b, all, n)
    ensures a == b
  {
    if b <= a {
      SubsetCount(b, a);
    } else if a <= b {
      SubsetCount(a, b);
    }
  }

  /** Keeping only the lowest of a part beforehand loses nothing, if as many are kept as in the end. */
  lemma {:induction false} LowestFirst(kept: set<nat>, table: set<nat>, part: set<nat>, rest: set<nat>,
                                       picked: set<nat>, limit: nat, n: nat)
    requires IsLowest(picked, part, limit) && (|part| <= limit || limit == n)
    ensures IsLowest(kept, table + picked + rest, n) <==> IsLowest(kept, table + part + rest, n)
  {
    var some, all := table + picked + rest, table + part + rest;
    if |part| <= limit {
      SubsetCount(picked, part);
    } else {
      assert |picked| == n && picked <= some <= all;
      SubsetCount(picked, some);
      SubsetCount(picked, all);
      if IsLowest(kept, some, n) {
        forall x, y | x in kept && y in all && y !in kept ensures x < y {
          if y !in some {
            BelowAll(kept, some, picked, n, x, y);
          }
        }
      }
      if IsLowest(kept, all, n) {
        forall y | y in kept ensures y in some {
          if y !in some {
            BelowAll(kept, all, picked, n, y, y);
          }
        }
      }
    }
  }

  /** A kept number lies below everything above `n` others. */
  lemma {:induction false} BelowAll(kept: set<nat>, all: set<nat>, picked: set<nat>, n: nat, x: nat, y: nat)
    requires IsLowest(kept, all, n) && picked <= all && |picked| == n && |all| >= n && x in kept
    requires y !in picked && forall p :: p in picked ==> p < y
    ensures x < y
  {
    if x >= y {
      assert picked <= kept;
      SubsetCount(picked + {x}, kept);
    }
  }
}
