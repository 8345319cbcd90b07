/** The codepoints of a page: their intervals, their union with what is resident, and the glyphs they map to
    (SdCardFont::prewarmStyle). */
module MiniLayout {
  import opened Bytes
  import opened FontData
  import opened Intervals
  import opened SdStyle

  ghost predicate Ascends(cps: seq<nat>) {
    forall i, j :: 0 <= i < j < |cps| ==> cps[i] < cps[j]
  }

  ghost predicate Words(cps: seq<nat>) {
    forall i :: 0 <= i < |cps| ==> cps[i] < 0x1_0000_0000
  }

  // --- Intervals of ascending codepoints ---

  /** Interval `k` numbers a stretch of consecutive codepoints by their places in the list. */
  ghost predicate Run(iv: EpdUnicodeInterval, cps: seq<nat>) {
    && iv.first <= iv.last && iv.offset + (iv.last - iv.first) < |cps|
    && forall i :: iv.offset <= i < RunEnd(iv) ==> cps[i] == iv.first + (i - iv.offset)
  }

  ghost predicate Follows(ivs: seq<EpdUnicodeInterval>, k: nat)
    requires k < |ivs|
  {
    ivs[k].offset == if k == 0 then 0 else RunEnd(ivs[k - 1])
  }

  /** The intervals cut the list into runs, one after the other. */
  ghost predicate RunsOf(ivs: seq<EpdUnicodeInterval>, cps: seq<nat>) {
    && (forall k :: 0 <= k < |ivs| ==> Run(ivs[k], cps))
    && (forall k :: 0 <= k < |ivs| ==> Follows(ivs, k))
    && |cps| == if ivs == [] then 0 else RunEnd(ivs[|ivs| - 1])
  }

  function RunEnd(iv: EpdUnicodeInterval): int {
    iv.offset + (iv.last - iv.first) + 1
  }

  lemma {:induction false} RunsAscend(ivs: seq<EpdUnicodeInterval>, cps: seq<nat>, k: nat, l: nat)
    requires RunsOf(ivs, cps) && Ascends(cps) && k < l < |ivs|
    ensures ivs[k].last < ivs[l].first && RunEnd(ivs[k]) <= ivs[l].offset
    decreases l
  {
    assert Run(ivs[l], cps) && Run(ivs[k], cps) && Follows(ivs, l);
    if k < l - 1 {
      RunsAscend(ivs, cps, k, l - 1);
      assert Run(ivs[l - 1], cps);
    }
    assert cps[RunEnd(ivs[k]) - 1] == ivs[k].last && cps[ivs[l].offset] == ivs[l].first;
  }

  /** The run that holds place `i`. */
  lemma {:induction false} RunAt(ivs: seq<EpdUnicodeInterval>, cps: seq<nat>, i: nat, n: nat) returns (k: nat)
    requires RunsOf(ivs, cps) && n <= |ivs| && i < (if n == 0 then 0 else RunEnd(ivs[n - 1]))
    ensures k < n && ivs[k].offset <= i < RunEnd(ivs[k])
    decreases n
  {
    assert Follows(ivs, n - 1);
    if ivs[n - 1].offset <= i {
      k := n - 1;
    } else {
      k := RunAt(ivs, cps, i, n - 1);
    }
  }

  lemma {:induction false} CoveredIsIn(iv: EpdUnicodeInterval, cps: seq<nat>, cp: nat)
    requires Run(iv, cps) && Covers(iv, cp)
    ensures cp in cps
  {
    assert cps[iv.offset + (cp - iv.first)] == cp;
  }

  /** A codepoint of the list is found at its place, and no other is found. */
  lemma {:induction false} RunsLookup(ivs: seq<EpdUnicodeInterval>, cps: seq<nat>, cp: nat)
    requires RunsOf(ivs, cps) && Ascends(cps)
    ensures Ascending(ivs)
    ensures cp in cps ==> Lookup(ivs, cp).Some? && Lookup(ivs, cp).value < |cps| && cps[Lookup(ivs, cp).value] == cp
    ensures cp !in cps ==> Lookup(ivs, cp) == None
  {
    forall k, l | 0 <= k < l < |ivs| ensures ivs[k].last < ivs[l].first {
      RunsAscend(ivs, cps, k, l);
    }
    assert forall k :: 0 <= k < |ivs| ==> Run(ivs[k], cps);
    if cp in cps {
      var i :| 0 <= i < |cps| && cps[i] == cp;
      var k := RunAt(ivs, cps, i, |ivs|);
      assert Run(ivs[k], cps);
      LookupAt(ivs, k, cp);
    } else {
      forall k | 0 <= k < |ivs| ensures !Covers(ivs[k], cp) {
        if Covers(ivs[k], cp) {
          CoveredIsIn(ivs[k], cps, cp);
        }
      }
      LookupNone(ivs, cp);
    }
  }

  lemma {:induction false} RunExtends(ivs: seq<EpdUnicodeInterval>, cps: seq<nat>, start: nat, end: nat)
    requires start < end <= |cps| && end < 0x1_0000_0000 && Words(cps) && RunsOf(ivs, cps[..start])
    requires forall i :: start <= i < end ==> cps[i] == cps[start] + (i - start)
    ensures RunsOf(ivs + [EpdUnicodeInterval(cps[start], cps[end - 1], start)], cps[..end])
  {
    var iv := EpdUnicodeInterval(cps[start], cps[end - 1], start);
    var more := ivs + [iv];
    forall k | 0 <= k < |more| ensures Run(more[k], cps[..end]) {
      if k < |ivs| {
        assert Run(ivs[k], cps[..start]);
        forall i | ivs[k].offset <= i < RunEnd(ivs[k]) ensures cps[..end][i] == ivs[k].first + (i - ivs[k].offset) {
          assert cps[..start][i] == ivs[k].first + (i - ivs[k].offset);
        }
      }
    }
    forall k | 0 <= k < |more| ensures Follows(more, k) {
      assert k < |ivs| ==> Follows(ivs, k);
    }
  }

  method BuildIntervals(cps: seq<nat>) returns (ivs: seq<EpdUnicodeInterval>)
    requires Ascends(cps) && Words(cps) && 0 < |cps| < 0x1_0000_0000
    ensures RunsOf(ivs, cps) && 0 < |ivs|
  {
    ivs := [];
    var rangeStart: nat, i: nat := 0, 1;
    assert cps[..0] == [];
    while i <= |cps|
      invariant 1 <= i <= |cps| + 1 && rangeStart <= |cps|
      invariant if i <= |cps| then rangeStart < i else rangeStart == |cps|
      invariant RunsOf(ivs, cps[..rangeStart])
      invariant forall k :: rangeStart <= k < i && k < |cps| ==> cps[k] == cps[rangeStart] + (k - rangeStart)
      invariant rangeStart > 0 ==> 0 < |ivs|
    {
      if i == |cps| || cps[i] != cps[i - 1] + 1 {
        RunExtends(ivs, cps, rangeStart, i);
        ivs := ivs + [EpdUnicodeInterval(cps[rangeStart], cps[i - 1], rangeStart)];
        rangeStart := i;
      }
      i := i + 1;
    }
    assert cps[..rangeStart] == cps;
  }

  /** The linear scan of the subset check. */
  method InMini(ivs: seq<EpdUnicodeInterval>, ghost cps: seq<nat>, cp: nat) returns (found: bool)
    requires RunsOf(ivs, cps) && Ascends(cps)
    ensures found <==> cp in cps
  {
    RunsLookup(ivs, cps, cp);
    var iv: nat := 0;
    while iv < |ivs|
      invariant iv <= |ivs| && forall k :: 0 <= k < iv ==> !Covers(ivs[k], cp)
    {
      if cp < ivs[iv].first { break; }
      if cp <= ivs[iv].last {
        LookupAt(ivs, iv, cp);
        return true;
      }
      iv := iv + 1;
    }
    assert forall k :: iv < k < |ivs| ==> ivs[iv].last < ivs[k].first;
    LookupNone(ivs, cp);
    return false;
  }

  // --- The union with what is resident ---

  /** Sorted merge without duplicates. */
  function Union(a: seq<nat>, b: seq<nat>): seq<nat>
    decreases |a| + |b|
  {
    if a == [] then b else if b == [] then a
    else if a[0] < b[0] then [a[0]] + Union(a[1..], b)
    else if a[0] == b[0] then [a[0]] + Union(a[1..], b[1..])
    else [b[0]] + Union(a, b[1..])
  }

  lemma {:induction false} UnionHas(a: seq<nat>, b: seq<nat>, x: nat)
    ensures x in Union(a, b) <==> x in a || x in b
    ensures |Union(a, b)| <= |a| + |b|
    decreases |a| + |b|
  {
    if a != [] && b != [] {
      assert a == [a[0]] + a[1..] && b == [b[0]] + b[1..];
      if a[0] < b[0] {
        UnionHas(a[1..], b, x);
      } else if a[0] == b[0] {
        UnionHas(a[1..], b[1..], x);
      } else {
        UnionHas(a, b[1..], x);
      }
    }
  }

  lemma {:induction false} UnionAscends(a: seq<nat>, b: seq<nat>)
    requires Ascends(a) && Ascends(b)
    ensures Ascends(Union(a, b))
    decreases |a| + |b|
  {
    if a != [] && b != [] {
      var rest := if a[0] < b[0] then Union(a[1..], b)
                  else if a[0] == b[0] then Union(a[1..], b[1..])
                  else Union(a, b[1..]);
      var head := if a[0] <= b[0] then a[0] else b[0];
      if a[0] < b[0] {
        UnionAscends(a[1..], b);
      } else if a[0] == b[0] {
        UnionAscends(a[1..], b[1..]);
      } else {
        UnionAscends(a, b[1..]);
      }
      forall i | 0 <= i < |rest| ensures head < rest[i] {
        if a[0] < b[0] {
          UnionHas(a[1..], b, rest[i]);
        } else if a[0] == b[0] {
          UnionHas(a[1..], b[1..], rest[i]);
        } else {
          UnionHas(a, b[1..], rest[i]);
        }
      }
    }
  }

  /** Where the walk over the resident intervals stands: at place `p` of the resident list, or past its end. */
  ghost predicate WalkAt(ivs: seq<EpdUnicodeInterval>, resident: seq<nat>, ivIdx: nat, ivCp: nat, active: bool,
                         p: nat) {
    if active then
      && ivIdx < |ivs| && ivs[ivIdx].first <= ivCp <= ivs[ivIdx].last
      && p == ivs[ivIdx].offset + (ivCp - ivs[ivIdx].first)
    else p == |resident|
  }

  lemma {:induction false} WalkReads(ivs: seq<EpdUnicodeInterval>, resident: seq<nat>, ivIdx: nat, ivCp: nat, p: nat)
    requires RunsOf(ivs, resident) && WalkAt(ivs, resident, ivIdx, ivCp, true, p)
    ensures p < |resident| && resident[p] == ivCp
    ensures ivCp == ivs[ivIdx].last ==> p + 1 == RunEnd(ivs[ivIdx])
    ensures ivCp == ivs[ivIdx].last && ivIdx + 1 == |ivs| ==> p + 1 == |resident|
    ensures ivCp == ivs[ivIdx].last && ivIdx + 1 < |ivs| ==>
      WalkAt(ivs, resident, ivIdx + 1, ivs[ivIdx + 1].first, true, p + 1)
  {
    assert Run(ivs[ivIdx], resident);
    if ivIdx + 1 < |ivs| {
      assert Run(ivs[ivIdx + 1], resident) && Follows(ivs, ivIdx + 1);
    }
  }

  /** One step over the resident intervals. */
  method WalkNext(ivs: seq<EpdUnicodeInterval>, ghost resident: seq<nat>, ivIdx: nat, ivCp: nat, ghost p: nat)
    returns (nextIdx: nat, nextCp: nat, active: bool)
    requires RunsOf(ivs, resident) && WalkAt(ivs, resident, ivIdx, ivCp, true, p)
    ensures WalkAt(ivs, resident, nextIdx, nextCp, active, p + 1)
  {
    WalkReads(ivs, resident, ivIdx, ivCp, p);
    if ivCp < ivs[ivIdx].last {
      return ivIdx, ivCp + 1, true;
    }
    if ivIdx + 1 < |ivs| {
      return ivIdx + 1, ivs[ivIdx + 1].first, true;
    }
    return ivIdx + 1, ivCp, false;
  }

  /** The two-way merge of the resident codepoints, read off their intervals, and the requested ones. */
  method MergeUnion(ivs: seq<EpdUnicodeInterval>, ghost resident: seq<nat>, request: seq<nat>)
    returns (merged: seq<nat>)
    requires RunsOf(ivs, resident) && Ascends(resident) && Ascends(request) && |ivs| > 0
    ensures merged == Union(resident, request)
  {
    merged := [];
    var ivIdx: nat, ivCp: nat, ivActive: bool, ri: nat := 0, ivs[0].first, true, 0;
    ghost var p: nat := 0;
    assert Run(ivs[0], resident) && Follows(ivs, 0);
    assert resident[0..] == resident && request[0..] == request;
    while ivActive || ri < |request|
      invariant WalkAt(ivs, resident, ivIdx, ivCp, ivActive, p) && Merged(resident, request, merged, p, ri)
      decreases |resident| - p + |request| - ri
    {
      if ivActive {
        WalkReads(ivs, resident, ivIdx, ivCp, p);
      }
      if ivActive && (ri >= |request| || ivCp <= request[ri]) {
        TakeResident(resident, request, merged, p, ri);
        merged := merged + [ivCp];
        if ri < |request| && request[ri] == ivCp {
          ri := ri + 1;
        }
        ivIdx, ivCp, ivActive := WalkNext(ivs, resident, ivIdx, ivCp, p);
        p := p + 1;
      } else {
        TakeRequest(resident, request, merged, p, ri);
        merged := merged + [request[ri]];
        ri := ri + 1;
      }
    }
    assert resident[p..] == [] && request[ri..] == [];
  }

  /** What was merged so far, with the union of the rest. */
  ghost predicate Merged(resident: seq<nat>, request: seq<nat>, merged: seq<nat>, p: nat, ri: nat) {
    p <= |resident| && ri <= |request| && Union(resident, request) == merged + Union(resident[p..], request[ri..])
  }

  lemma {:induction false} TakeResident(resident: seq<nat>, request: seq<nat>, merged: seq<nat>, p: nat, ri: nat)
    requires Merged(resident, request, merged, p, ri) && p < |resident|
    requires (ri < |request| ==> resident[p] <= request[ri])
    ensures Merged(resident, request, merged + [resident[p]], p + 1,
                   if ri < |request| && request[ri] == resident[p] then ri + 1 else ri)
  {
    assert resident[p..][1..] == resident[p + 1..] && resident[p..][0] == resident[p];
    if ri < |request| {
      assert request[ri..][1..] == request[ri + 1..];
    } else {
      assert request[ri..] == [] && resident[p..] == [resident[p]] + resident[p + 1..];
    }
  }

  lemma {:induction false} TakeRequest(resident: seq<nat>, request: seq<nat>, merged: seq<nat>, p: nat, ri: nat)
    requires Merged(resident, request, merged, p, ri) && ri < |request|
    requires (p < |resident| ==> request[ri] < resident[p])
    ensures Merged(resident, request, merged + [request[ri]], p, ri + 1)
  {
    assert request[ri..][1..] == request[ri + 1..] && request[ri..][0] == request[ri];
    if p < |resident| {
      assert resident[p..][0] == resident[p];
    } else {
      assert resident[p..] == [] && request[ri..] == [request[ri]] + request[ri + 1..];
    }
  }

  // --- The font's coverage ---

  /** The codepoints the font covers, in order. */
  function CoveredOf(style: StyleFile, cps: seq<nat>): (r: seq<nat>)
    ensures |r| <= |cps|
  {
    if cps == [] then [] else
      var before := CoveredOf(style, cps[..|cps| - 1]);
      if GlyphIndex(style, cps[|cps| - 1]).Some? then before + [cps[|cps| - 1]] else before
  }

  /** How many it does not. */
  function Missing(style: StyleFile, cps: seq<nat>): nat {
    |cps| - |CoveredOf(style, cps)|
  }

  lemma {:induction false} CoveredHas(style: StyleFile, cps: seq<nat>, x: nat)
    ensures x in CoveredOf(style, cps) <==> x in cps && GlyphIndex(style, x).Some?
  {
    if cps != [] {
      CoveredHas(style, cps[..|cps| - 1], x);
      assert cps == cps[..|cps| - 1] + [cps[|cps| - 1]];
    }
  }

  lemma {:induction false} CoveredAscends(style: StyleFile, cps: seq<nat>)
    requires Ascends(cps)
    ensures Ascends(CoveredOf(style, cps))
  {
    if cps != [] {
      var before := CoveredOf(style, cps[..|cps| - 1]);
      CoveredAscends(style, cps[..|cps| - 1]);
      forall i | 0 <= i < |before| ensures before[i] < cps[|cps| - 1] {
        CoveredHas(style, cps[..|cps| - 1], before[i]);
      }
    }
  }

  ghost predicate AllCovered(style: StyleFile, cps: seq<nat>) {
    forall i :: 0 <= i < |cps| ==> GlyphIndex(style, cps[i]).Some?
  }

  /** Adding covered codepoints to a request does not change how many it misses. */
  lemma {:induction false} UnionMissing(style: StyleFile, a: seq<nat>, b: seq<nat>)
    requires Ascends(a) && Ascends(b) && AllCovered(style, a)
    ensures Missing(style, Union(a, b)) == Missing(style, b)
    decreases |a| + |b|
  {
    if a == [] {
    } else if b == [] {
      AllCoveredOf(style, a);
    } else if a[0] < b[0] {
      MissingHead(style, a[0], Union(a[1..], b));
      UnionMissing(style, a[1..], b);
    } else if a[0] == b[0] {
      MissingHead(style, a[0], Union(a[1..], b[1..]));
      MissingHead(style, b[0], b[1..]);
      assert b == [b[0]] + b[1..];
      UnionMissing(style, a[1..], b[1..]);
    } else {
      MissingHead(style, b[0], Union(a, b[1..]));
      MissingHead(style, b[0], b[1..]);
      assert b == [b[0]] + b[1..];
      UnionMissing(style, a, b[1..]);
    }
  }

  lemma {:induction false} AllCoveredOf(style: StyleFile, cps: seq<nat>)
    requires AllCovered(style, cps)
    ensures Missing(style, cps) == 0
  {
    if cps != [] {
      AllCoveredOf(style, cps[..|cps| - 1]);
    }
  }

  lemma {:induction false} MissingHead(style: StyleFile, x: nat, rest: seq<nat>)
    ensures Missing(style, [x] + rest) == Missing(style, rest) + if GlyphIndex(style, x).Some? then 0 else 1
  {
    if rest == [] {
      assert [x] + rest == [x] && [x][..0] == [];
    } else {
      assert ([x] + rest)[..|rest|] == [x] + rest[..|rest| - 1];
      MissingHead(style, x, rest[..|rest| - 1]);
    }
  }
}
