/** The process-wide registry of interval tables that loaded fonts share (lib/EpdFont/SdCardFont.cpp). */
module IntervalRegistry {
  import opened Bytes
  import opened Card
  import opened Intervals

  const MAX_SHARED_INTERVALS := 16
  const MAX_STYLES := 4

  /** A table in memory, in the 16-bit form if `compact`; never written once it is complete. */
  class IntervalTable {
    const rows: seq<EpdUnicodeInterval>
    const compact: bool

    constructor (rows: seq<EpdUnicodeInterval>, compact: bool)
      ensures this.rows == rows && this.compact == compact
    {
      this.rows, this.compact := rows, compact;
    }
  }

  datatype SharedIntervals = SharedIntervals(table: IntervalTable?, count: nat, bmp16: bool, refs: nat)

  const EMPTY_ENTRY := SharedIntervals(null, 0, false, 0)

  /** The interval part of a loaded style. */
  datatype PerStyle = PerStyle(fullIntervals: IntervalTable?, bmpIntervals: IntervalTable?, intervalsAreBmp16: bool) {
    function Held(): IntervalTable? {
      if bmpIntervals != null then bmpIntervals else fullIntervals
    }
  }

  const UNLOADED := PerStyle(null, null, false)

  type Entries = s: seq<SharedIntervals> | |s| == MAX_SHARED_INTERVALS
    witness seq(MAX_SHARED_INTERVALS, _ => EMPTY_ENTRY)

  function Uses(style: PerStyle, table: IntervalTable): nat {
    if style.Held() == table then 1 else 0
  }

  /** How many styles hold a table. */
  function Users(styles: seq<PerStyle>, table: IntervalTable): nat {
    if styles == [] then 0 else Users(styles[..|styles| - 1], table) + Uses(styles[|styles| - 1], table)
  }

  lemma {:induction false} UsersUpdate(styles: seq<PerStyle>, i: nat, style: PerStyle, table: IntervalTable)
    requires i < |styles|
    ensures Users(styles[i := style], table) == Users(styles, table) - Uses(styles[i], table) + Uses(style, table)
  {
    var after := styles[i := style];
    if i < |styles| - 1 {
      UsersUpdate(styles[..|styles| - 1], i, style, table);
      assert after[..|styles| - 1] == styles[..|styles| - 1][i := style];
    } else {
      assert after[..|styles| - 1] == styles[..|styles| - 1];
    }
  }

  lemma {:induction false} UsersSome(styles: seq<PerStyle>, i: nat, table: IntervalTable)
    requires i < |styles| && styles[i].Held() == table
    ensures Users(styles, table) > 0
  {
    if i < |styles| - 1 {
      UsersSome(styles[..|styles| - 1], i, table);
    }
  }

  lemma {:induction false} UsersNone(styles: seq<PerStyle>, table: IntervalTable)
    requires forall i :: 0 <= i < |styles| ==> styles[i].Held() != table
    ensures Users(styles, table) == 0
  {
    if styles != [] {
      UsersNone(styles[..|styles| - 1], table);
    }
  }

  // --- What always holds ---

  predicate Registered(shared: Entries, table: IntervalTable) {
    exists k :: 0 <= k < MAX_SHARED_INTERVALS && shared[k].table == table
  }

  /** An entry counts the users of its table. */
  ghost predicate EntryOk(entry: SharedIntervals, styles: seq<PerStyle>) {
    if entry.table == null then entry == EMPTY_ENTRY
    else
      && entry.refs == Users(styles, entry.table) > 0
      && entry.count == |entry.table.rows| && entry.bmp16 == entry.table.compact
  }

  /** A style holds one table at most, in the form it says; a table still being read is its own. */
  ghost predicate StyleOk(style: PerStyle, shared: Entries) {
    && (style.fullIntervals == null || (style.bmpIntervals == null && !style.fullIntervals.compact))
    && (style.bmpIntervals != null ==> style.bmpIntervals.compact)
    && (style.intervalsAreBmp16 ==> style.bmpIntervals != null)
    && (style.bmpIntervals != null && !style.intervalsAreBmp16 ==> !Registered(shared, style.bmpIntervals))
  }

  ghost predicate EntriesOk(shared: Entries, styles: seq<PerStyle>) {
    && (forall k :: 0 <= k < MAX_SHARED_INTERVALS ==> EntryOk(shared[k], styles))
    && (forall k, l :: 0 <= k < l < MAX_SHARED_INTERVALS && shared[k].table != null ==>
          shared[k].table != shared[l].table)
  }

  ghost predicate StylesOk(styles: seq<PerStyle>, shared: Entries) {
    forall i :: 0 <= i < |styles| ==> StyleOk(styles[i], shared)
  }

  /** The tables in memory are those some style holds; one that is not registered has a single holder. */
  ghost predicate LiveOk(shared: Entries, styles: seq<PerStyle>, live: set<IntervalTable>) {
    && (forall i :: 0 <= i < |styles| ==> styles[i].Held() == null || styles[i].Held() in live)
    && (forall t :: t in live ==> Users(styles, t) > 0 && (!Registered(shared, t) ==> Users(styles, t) == 1))
  }

  ghost predicate RegistryOk(shared: Entries, styles: seq<PerStyle>, live: set<IntervalTable>) {
    EntriesOk(shared, styles) && StylesOk(styles, shared) && LiveOk(shared, styles, live)
  }

  // --- Giving a table up ---

  /** The entries after a style gave its table up. */
  ghost predicate Dropped(before: Entries, after: Entries, table: IntervalTable?, last: bool) {
    if table == null || !Registered(before, table) then after == before && last
    else exists k :: 0 <= k < MAX_SHARED_INTERVALS && before[k].table == table && before[k].refs > 0
           && last == (before[k].refs == 1)
           && after == before[k := if last then EMPTY_ENTRY else before[k].(refs := before[k].refs - 1)]
  }

  lemma {:induction false} StillHeld(styles: seq<PerStyle>, i: nat, style: PerStyle, t: IntervalTable)
    requires i < |styles|
    ensures Users(styles[i := style], t) == Users(styles, t) - Uses(styles[i], t) + Uses(style, t)
    ensures Uses(styles[i], t) <= Users(styles, t)
  {
    UsersUpdate(styles, i, style, t);
    if styles[i].Held() == t {
      UsersSome(styles, i, t);
    }
  }

  /** The table a style gives up: the one its form names; a table still being read is not looked up. */
  function Named(style: PerStyle): IntervalTable? {
    if style.intervalsAreBmp16 then style.bmpIntervals else style.fullIntervals
  }

  lemma {:induction false} ReleasedOk(shared: Entries, styles: seq<PerStyle>, live: set<IntervalTable>, i: nat,
                                      after: Entries, last: bool)
    requires RegistryOk(shared, styles, live) && i < |styles| && Dropped(shared, after, Named(styles[i]), last)
    ensures RegistryOk(after, styles[i := UNLOADED],
                       if last && styles[i].Held() != null then live - {styles[i].Held()} else live)
    ensures last <==> styles[i].Held() == null || Users(styles, styles[i].Held()) == 1
  {
    var now, table := styles[i := UNLOADED], styles[i].Held();
    forall t: IntervalTable
      ensures Users(now, t) == Users(styles, t) - Uses(styles[i], t) && Uses(styles[i], t) <= Users(styles, t)
    {
      StillHeld(styles, i, UNLOADED, t);
    }
    if table != null {
      assert table in live;
      assert Named(styles[i]) == null ==> !Registered(shared, table);
    }
    assert StylesOk(now, after) by {
      forall n | 0 <= n < |now| ensures StyleOk(now[n], after) {
        if n != i {
          assert StyleOk(styles[n], shared);
        }
      }
    }
    assert EntriesOk(after, now) by {
      forall k | 0 <= k < MAX_SHARED_INTERVALS ensures EntryOk(after[k], now) {
        assert EntryOk(shared[k], styles);
      }
    }
    var left := if last && table != null then live - {table} else live;
    forall n | 0 <= n < |now| && now[n].Held() != null ensures now[n].Held() in left {
      UsersSome(now, n, now[n].Held());
      assert n != i && styles[n].Held() in live;
    }
    forall t | t in left && Registered(shared, t) ensures Registered(after, t) {
      var k :| 0 <= k < MAX_SHARED_INTERVALS && shared[k].table == t;
      assert EntryOk(shared[k], styles);
      assert after[k].table == t;
    }
  }

  // --- Taking a table ---

  function Sharing(table: IntervalTable): PerStyle {
    if table.compact then PerStyle(null, table, true) else PerStyle(table, null, false)
  }

  lemma {:induction false} SharedOk(shared: Entries, styles: seq<PerStyle>, live: set<IntervalTable>, i: nat, k: nat)
    requires RegistryOk(shared, styles, live) && i < |styles| && styles[i] == UNLOADED
    requires k < MAX_SHARED_INTERVALS && shared[k].table != null
    ensures RegistryOk(shared[k := shared[k].(refs := shared[k].refs + 1)], styles[i := Sharing(shared[k].table)], live)
  {
    var table := shared[k].table;
    var after, now := shared[k := shared[k].(refs := shared[k].refs + 1)], styles[i := Sharing(table)];
    forall t: IntervalTable ensures Users(now, t) == Users(styles, t) + if t == table then 1 else 0 {
      StillHeld(styles, i, Sharing(table), t);
    }
    assert EntryOk(shared[k], styles);
    forall t: IntervalTable ensures Registered(after, t) <==> Registered(shared, t) {
      SameTables(shared, after, t);
    }
    assert Users(styles, table) > 0;
    HeldIsLive(styles, table, live);
    assert EntriesOk(after, now) by {
      forall n | 0 <= n < MAX_SHARED_INTERVALS ensures EntryOk(after[n], now) {
        assert EntryOk(shared[n], styles);
      }
    }
    assert StylesOk(now, after) by {
      forall n | 0 <= n < |now| && n != i ensures StyleOk(now[n], after) {
        assert StyleOk(styles[n], shared);
      }
      assert Registered(shared, table);
    }
  }

  lemma {:induction false} SameTables(shared: Entries, after: Entries, t: IntervalTable)
    requires forall k :: 0 <= k < MAX_SHARED_INTERVALS ==> after[k].table == shared[k].table
    ensures Registered(after, t) <==> Registered(shared, t)
  {
    if Registered(shared, t) {
      var k :| 0 <= k < MAX_SHARED_INTERVALS && shared[k].table == t;
      assert after[k].table == t;
    }
  }

  lemma {:induction false} HeldIsLive(styles: seq<PerStyle>, table: IntervalTable, live: set<IntervalTable>)
    requires Users(styles, table) > 0
    requires forall i :: 0 <= i < |styles| ==> styles[i].Held() == null || styles[i].Held() in live
    ensures table in live
  {
    if forall i :: 0 <= i < |styles| ==> styles[i].Held() != table {
      UsersNone(styles, table);
    }
  }

  /** A new table, held by one style. */
  lemma {:induction false} AddedOk(shared: Entries, styles: seq<PerStyle>, live: set<IntervalTable>, i: nat,
                                   style: PerStyle, table: IntervalTable)
    requires RegistryOk(shared, styles, live) && i < |styles| && styles[i] == UNLOADED && table !in live
    requires style == Sharing(table) || (table.compact && style == PerStyle(null, table, false))
    ensures RegistryOk(shared, styles[i := style], live + {table}) && !Registered(shared, table)
    ensures Users(styles[i := style], table) == 1
  {
    var now := styles[i := style];
    forall t: IntervalTable ensures Users(now, t) == Users(styles, t) + if t == table then 1 else 0 {
      StillHeld(styles, i, style, t);
    }
    if Users(styles, table) > 0 {
      HeldIsLive(styles, table, live);
    }
    forall k | 0 <= k < MAX_SHARED_INTERVALS ensures shared[k].table != table && EntryOk(shared[k], now) {
      assert EntryOk(shared[k], styles);
    }
    assert StylesOk(now, shared) by {
      forall n | 0 <= n < |now| && n != i ensures StyleOk(now[n], shared) {
        assert StyleOk(styles[n], shared);
      }
    }
  }

  /** A complete table that only one style holds is offered to later loads. */
  lemma {:induction false} RegisteredOk(shared: Entries, styles: seq<PerStyle>, live: set<IntervalTable>,
                                        table: IntervalTable, k: nat)
    requires RegistryOk(shared, styles, live) && k < MAX_SHARED_INTERVALS && shared[k].table == null
    requires Users(styles, table) == 1 && !Registered(shared, table)
    requires forall i :: 0 <= i < |styles| && styles[i].Held() == table ==> styles[i] == Sharing(table)
    ensures RegistryOk(shared[k := SharedIntervals(table, |table.rows|, table.compact, 1)], styles, live)
  {
    var after := shared[k := SharedIntervals(table, |table.rows|, table.compact, 1)];
    forall n | 0 <= n < MAX_SHARED_INTERVALS ensures EntryOk(after[n], styles) {
      assert EntryOk(shared[n], styles);
    }
    forall n | 0 <= n < |styles| ensures StyleOk(styles[n], after) {
      assert StyleOk(styles[n], shared);
    }
    forall t | t in live && Registered(shared, t) ensures Registered(after, t) {
      var m :| 0 <= m < MAX_SHARED_INTERVALS && shared[m].table == t;
      assert after[m].table == t;
    }
  }

  // --- Loading and freeing ---

  /** What a .cpfont file says of one style. */
  datatype StyleHeader = StyleHeader(intervals: seq<EpdUnicodeInterval>, glyphCount: nat)

  /** All fonts of the process: style `i` of font `f` is `styles[MAX_STYLES * f + i]`. */
  class LoadedFonts {
    const card: Device
    var shared: Entries
    var styles: seq<PerStyle>
    /** The tables allocated and not freed. */
    ghost var live: set<IntervalTable>

    ghost predicate Valid()
      reads this
    {
      RegistryOk(shared, styles, live)
    }

    constructor (card: Device, fonts: nat)
      ensures Valid() && this.card == card && styles == seq(MAX_STYLES * fonts, _ => UNLOADED) && live == {}
    {
      this.card := card;
      shared := seq(MAX_SHARED_INTERVALS, _ => EMPTY_ENTRY);
      styles := seq(MAX_STYLES * fonts, _ => UNLOADED);
      live := {};
    }

    /** Frees a table; freeing one twice, or one that is null, cannot happen. */
    method Delete(table: IntervalTable?)
      requires table != null ==> table in live
      modifies this`live
      ensures live == if table == null then old(live) else old(live) - {table}
    {
      if table != null {
        live := live - {table};
      }
    }

    /** Drops one reference; says whether it was the last. */
    method DropReference(table: IntervalTable?) returns (lastReference: bool)
      requires EntriesOk(shared, styles)
      modifies this`shared
      ensures Dropped(old(shared), shared, table, lastReference)
    {
      lastReference := true;
      var k: nat := 0;
      while k < MAX_SHARED_INTERVALS
        invariant k <= MAX_SHARED_INTERVALS && shared == old(shared) && lastReference
        invariant table != null ==> forall n :: 0 <= n < k ==> shared[n].table != table
      {
        if table != null && shared[k].table == table {
          assert EntryOk(shared[k], styles);
          lastReference := shared[k].refs - 1 == 0;
          shared := shared[k := if lastReference then EMPTY_ENTRY else shared[k].(refs := shared[k].refs - 1)];
          break;
        }
        k := k + 1;
      }
    }

    /** SdCardFont::releaseIntervals: gives the style's table up and frees it with its last user. */
    method ReleaseIntervals(i: nat)
      requires Valid() && i < |styles|
      modifies this
      ensures Valid() && styles == old(styles)[i := UNLOADED]
      ensures live == if old(styles)[i].Held() != null && Users(old(styles), old(styles)[i].Held()) == 1
                      then old(live) - {old(styles)[i].Held()} else old(live)
    {
      var style := styles[i];
      var table := if style.intervalsAreBmp16 then style.bmpIntervals else style.fullIntervals;
      assert StyleOk(style, shared);
      var lastReference := DropReference(table);
      ReleasedOk(old(shared), styles, live, i, shared, lastReference);
      if lastReference {
        Delete(style.fullIntervals);
        Delete(style.bmpIntervals);
      }
      styles := styles[i := UNLOADED];
    }

    /** The entries whose table has the content being read, as far as it was read. */
    method StartSharing(count: nat) returns (candidates: seq<bool>)
      ensures Candidates(candidates, shared, count, [])
    {
      candidates := seq(MAX_SHARED_INTERVALS, k requires 0 <= k < MAX_SHARED_INTERVALS reads this =>
        shared[k].table != null && shared[k].count == count);
    }

    method CompareRecord(candidates: seq<bool>, ivs: seq<EpdUnicodeInterval>, j: nat) returns (r: seq<bool>)
      requires EntriesOk(shared, styles) && j < |ivs| && Candidates(candidates, shared, |ivs|, ivs[..j])
      ensures Candidates(r, shared, |ivs|, ivs[..j + 1])
    {
      r := candidates;
      var k: nat := 0;
      while k < MAX_SHARED_INTERVALS
        invariant k <= MAX_SHARED_INTERVALS && |r| == MAX_SHARED_INTERVALS
        invariant forall n :: k <= n < MAX_SHARED_INTERVALS ==> r[n] == candidates[n]
        invariant forall n :: 0 <= n < k ==> (r[n] <==> Candidate(shared[n], |ivs|, ivs[..j + 1]))
      {
        CandidateNext(shared[k], ivs, j);
        if r[k] {
          assert EntryOk(shared[k], styles);
          r := r[k := shared[k].table.rows[j] == ivs[j]];
        }
        k := k + 1;
      }
    }

    /** Validates the records and narrows the tables that hold the same; a read may fail. */
    method ScanIntervals(header: StyleHeader) returns (ok: bool, compact: bool, candidates: seq<bool>)
      requires EntriesOk(shared, styles) && header.glyphCount <= MAX_GLYPHS
      modifies card`faults
      ensures card.faults >= old(card.faults)
      ensures ok ==> Passes(header.intervals, header.glyphCount) && compact == Compacts(header)
      ensures ok ==> Candidates(candidates, shared, |header.intervals|, header.intervals)
      ensures !ok ==> card.faults > old(card.faults) || !Passes(header.intervals, header.glyphCount)
    {
      var ivs := header.intervals;
      compact := header.glyphCount <= UINT16_MAX;
      candidates := StartSharing(|ivs|);
      var expectedOffset: Word, prevLast: Word, j: nat := 0, 0, 0;
      assert ivs[..0] == [];
      while j < |ivs|
        invariant j <= |ivs| && Accepted(ivs[..j], header.glyphCount, expectedOffset)
        invariant (j > 0 ==> prevLast == ivs[j - 1].last)
        invariant compact <==> header.glyphCount <= UINT16_MAX && forall k :: 0 <= k < j ==> Fits16(ivs[k])
        invariant Candidates(candidates, shared, |ivs|, ivs[..j]) && card.faults >= old(card.faults)
      {
        var readable := card.Try();
        if !readable { return false, compact, candidates; }
        ok, expectedOffset := CheckRecord(ivs, j, header.glyphCount, expectedOffset, prevLast);
        if !ok { return; }
        if !Fits16(ivs[j]) {
          compact := false;
        }
        candidates := CompareRecord(candidates, ivs, j);
        prevLast := ivs[j].last;
        j := j + 1;
      }
      assert ivs[..j] == ivs;
      ok := true;
    }

    /** Aliases a table with the same content in the same form, if one is loaded. */
    method TakeShared(i: nat, candidates: seq<bool>, ivs: seq<EpdUnicodeInterval>, compact: bool) returns (found: bool)
      requires Valid() && i < |styles| && styles[i] == UNLOADED && Candidates(candidates, shared, |ivs|, ivs)
      modifies this`shared, this`styles
      ensures Valid() && Elsewhere(old(styles), styles, i)
      ensures if found then Holds(styles[i], ivs, compact) else styles == old(styles) && shared == old(shared)
      ensures found <==> Offered(old(shared), ivs, compact)
      ensures found ==> Registered(shared, styles[i].Held())
    {
      var k: nat := 0;
      while k < MAX_SHARED_INTERVALS
        invariant k <= MAX_SHARED_INTERVALS && shared == old(shared) && styles == old(styles)
        invariant forall n :: 0 <= n < k ==> !Offers(shared[n], ivs, compact)
      {
        assert EntryOk(shared[k], styles);
        if candidates[k] && shared[k].bmp16 == compact {
          SharedOk(shared, styles, live, i, k);
          styles := styles[i := Sharing(shared[k].table)];
          assert Offers(shared[k], ivs, compact);
          shared := shared[k := shared[k].(refs := shared[k].refs + 1)];
          assert shared[k].table == styles[i].Held();
          return true;
        }
        k := k + 1;
      }
      return false;
    }

    /** Reads the records again into a table of the style's own. */
    method ReadTable(i: nat, ivs: seq<EpdUnicodeInterval>, compact: bool) returns (ok: bool)
      requires Valid() && i < |styles| && styles[i] == UNLOADED
      requires compact ==> forall k :: 0 <= k < |ivs| ==> Fits16(ivs[k])
      modifies this`styles, this`live, card`faults
      ensures Valid() && Elsewhere(old(styles), styles, i)
      ensures card.faults >= old(card.faults) && (!ok ==> card.faults > old(card.faults))
      ensures ok ==> Holds(styles[i], ivs, compact) && Private(shared, styles, styles[i].Held())
    {
      var memory := card.Try();
      if !memory { return false; }
      var rows, j: nat := [], 0;
      ok := true;
      while j < |ivs|
        invariant j == |rows| <= |ivs| && rows == ivs[..j] && card.faults >= old(card.faults)
        modifies card`faults
      {
        var readable := card.Try();
        if !readable {
          ok := false;
          break;
        }
        rows := rows + [if compact then Narrow(ivs[j]) else ivs[j]];
        j := j + 1;
      }
      var table := new IntervalTable(rows, compact);
      var style := if compact then PerStyle(null, table, ok) else PerStyle(table, null, false);
      AddedOk(shared, styles, live, i, style, table);
      styles, live := styles[i := style], live + {table};
      assert ok ==> rows == ivs;
    }

    /** Offers the style's table to later loads; with the registry full it stays private. */
    method Register(i: nat, count: nat)
      requires Valid() && i < |styles| && styles[i].Held() != null && styles[i] == Sharing(styles[i].Held())
      requires Private(shared, styles, styles[i].Held()) && count == |styles[i].Held().rows|
      modifies this`shared
      ensures Valid()
      ensures if Full(old(shared)) then shared == old(shared) else Registered(shared, styles[i].Held())
    {
      var table := styles[i].Held();
      var k: nat := 0;
      while k < MAX_SHARED_INTERVALS
        invariant k <= MAX_SHARED_INTERVALS && shared == old(shared)
        invariant forall n :: 0 <= n < k ==> shared[n].table != null
      {
        if shared[k].table == null {
          OnlyHolder(styles, i, table);
          RegisteredOk(shared, styles, live, table, k);
          shared := shared[k := SharedIntervals(table, count, styles[i].intervalsAreBmp16, 1)];
          assert shared[k].table == table;
          return;
        }
        k := k + 1;
      }
    }

    /** The interval part of SdCardFont::load for one style: a table that is registered with the same content in the
        same form is shared, and any other becomes one to share as long as there is an entry for it. */
    method LoadStyle(i: nat, header: StyleHeader) returns (ok: bool)
      requires Valid() && i < |styles| && styles[i] == UNLOADED && header.glyphCount <= MAX_GLYPHS
      modifies this, card`faults
      ensures Valid() && Elsewhere(old(styles), styles, i) && card.faults >= old(card.faults)
      ensures ok ==> Passes(header.intervals, header.glyphCount) && Holds(styles[i], header.intervals, Compacts(header))
      ensures !ok ==> card.faults > old(card.faults) || !Passes(header.intervals, header.glyphCount)
      ensures ok && Offered(old(shared), header.intervals, Compacts(header)) ==> live == old(live)
      ensures ok && (Offered(old(shared), header.intervals, Compacts(header)) || !Full(old(shared))) ==>
        Registered(shared, styles[i].Held())
    {
      var compact, candidates;
      ok, compact, candidates := ScanIntervals(header);
      if !ok { return; }
      var found := TakeShared(i, candidates, header.intervals, compact);
      if found { return; }
      var seeks := card.Try();
      if !seeks { return false; }
      ok := ReadTable(i, header.intervals, compact);
      if !ok { return; }
      Register(i, |header.intervals|);
    }

    /** Gives up the tables of all styles of a font. */
    method FreeAll(f: nat)
      requires Valid() && MAX_STYLES * f + MAX_STYLES <= |styles|
      modifies this
      ensures Valid() && Unloaded(styles, f) && OtherFonts(old(styles), styles, f)
    {
      var i: nat := 0;
      while i < MAX_STYLES
        invariant i <= MAX_STYLES && Valid() && OtherFonts(old(styles), styles, f)
        invariant forall k :: MAX_STYLES * f <= k < MAX_STYLES * f + i ==> styles[k] == UNLOADED
      {
        ReleaseIntervals(MAX_STYLES * f + i);
        i := i + 1;
      }
    }

    /** SdCardFont::load, as far as intervals go; a failure part of the way unloads the font. */
    method Load(f: nat, file: seq<Option<StyleHeader>>) returns (ok: bool)
      requires Valid() && MAX_STYLES * f + MAX_STYLES <= |styles| && |file| == MAX_STYLES
      requires forall i :: 0 <= i < MAX_STYLES && file[i].Some? ==> file[i].value.glyphCount <= MAX_GLYPHS
      modifies this, card`faults
      ensures Valid() && OtherFonts(old(styles), styles, f) && card.faults >= old(card.faults)
      ensures ok ==> forall k :: MAX_STYLES * f <= k < MAX_STYLES * f + MAX_STYLES ==>
        StyleLoaded(styles[k], file[k - MAX_STYLES * f])
      ensures !ok ==> Unloaded(styles, f)
      ensures !ok ==> card.faults > old(card.faults)
                      || exists i :: 0 <= i < MAX_STYLES && file[i].Some?
                                     && !Passes(file[i].value.intervals, file[i].value.glyphCount)
    {
      FreeAll(f);
      var i: nat := 0;
      while i < MAX_STYLES
        invariant i <= MAX_STYLES && Valid() && OtherFonts(old(styles), styles, f) && card.faults >= old(card.faults)
        invariant forall k :: MAX_STYLES * f <= k < MAX_STYLES * f + i ==>
          StyleLoaded(styles[k], file[k - MAX_STYLES * f])
        invariant forall k :: MAX_STYLES * f + i <= k < MAX_STYLES * f + MAX_STYLES ==> styles[k] == UNLOADED
      {
        if file[i].Some? {
          ok := LoadStyle(MAX_STYLES * f + i, file[i].value);
          if !ok {
            FreeAll(f);
            return;
          }
        }
        i := i + 1;
      }
      ok := true;
    }

    /** SdCardFont::findGlobalGlyphIndex: the search over a style's table in either form. */
    method FindGlobalGlyphIndex(i: nat, cp: nat) returns (index: Option<nat>)
      requires i < |styles| && styles[i].Held() != null && styles[i] == Sharing(styles[i].Held())
      requires Ascending(styles[i].Held().rows)
      ensures index == Lookup(styles[i].Held().rows, cp)
    {
      var style := styles[i];
      var rows := if style.intervalsAreBmp16 then style.bmpIntervals.rows else style.fullIntervals.rows;
      index := FindGlyphIndex(rows, cp);
    }
  }

  /** The 16-bit form is used whenever every record fits it. */
  predicate Compacts(header: StyleHeader) {
    header.glyphCount <= UINT16_MAX && forall k :: 0 <= k < |header.intervals| ==> Fits16(header.intervals[k])
  }

  lemma {:induction false} CompactsIs(header: StyleHeader)
    ensures Compacts(header) <==>
            && header.glyphCount < 0x1_0000
            && forall k :: 0 <= k < |header.intervals| ==>
                 var iv := header.intervals[k];
                 iv.first < 0x1_0000 && iv.last < 0x1_0000 && iv.offset < 0x1_0000
  {
    assert forall k :: 0 <= k < |header.intervals| ==>
      (Fits16(header.intervals[k]) <==> var iv := header.intervals[k];
                                         iv.first < 0x1_0000 && iv.last < 0x1_0000 && iv.offset < 0x1_0000);
  }

  /** A record cut down to 16 bits. */
  function Narrow(iv: EpdUnicodeInterval): (n: EpdUnicodeInterval)
    ensures Fits16(iv) ==> n == iv
  {
    EpdUnicodeInterval(iv.first % 0x1_0000, iv.last % 0x1_0000, iv.offset % 0x1_0000)
  }

  predicate Holds(style: PerStyle, ivs: seq<EpdUnicodeInterval>, compact: bool) {
    && style.Held() != null && style == Sharing(style.Held())
    && style.Held().rows == ivs && style.Held().compact == compact
  }

  /** A loaded style holds exactly the file's table; an absent one nothing. */
  ghost predicate StyleLoaded(style: PerStyle, header: Option<StyleHeader>) {
    if header.None? then style == UNLOADED
    else
      && Passes(header.value.intervals, header.value.glyphCount)
      && Holds(style, header.value.intervals, Compacts(header.value))
  }

  /** An entry whose table can be shared: the same records in the same form. */
  predicate Offers(entry: SharedIntervals, ivs: seq<EpdUnicodeInterval>, compact: bool) {
    entry.table != null && entry.table.rows == ivs && entry.table.compact == compact
  }

  ghost predicate Offered(shared: Entries, ivs: seq<EpdUnicodeInterval>, compact: bool) {
    exists k :: 0 <= k < MAX_SHARED_INTERVALS && Offers(shared[k], ivs, compact)
  }

  predicate Full(shared: Entries) {
    forall k :: 0 <= k < MAX_SHARED_INTERVALS ==> shared[k].table != null
  }

  predicate Private(shared: Entries, styles: seq<PerStyle>, table: IntervalTable) {
    !Registered(shared, table) && Users(styles, table) == 1
  }

  predicate Elsewhere(before: seq<PerStyle>, after: seq<PerStyle>, i: nat) {
    |after| == |before| && forall k :: 0 <= k < |before| && k != i ==> after[k] == before[k]
  }

  predicate Unloaded(styles: seq<PerStyle>, f: nat) {
    forall k :: MAX_STYLES * f <= k < MAX_STYLES * f + MAX_STYLES && k < |styles| ==> styles[k] == UNLOADED
  }

  predicate OtherFonts(before: seq<PerStyle>, after: seq<PerStyle>, f: nat) {
    |after| == |before|
    && forall k :: 0 <= k < |before| && !(MAX_STYLES * f <= k < MAX_STYLES * f + MAX_STYLES) ==> after[k] == before[k]
  }

  /** With one user, nobody else holds the table. */
  lemma {:induction false} OnlyHolder(styles: seq<PerStyle>, i: nat, table: IntervalTable)
    requires i < |styles| && styles[i].Held() == table && Users(styles, table) == 1
    ensures forall k :: 0 <= k < |styles| && styles[k].Held() == table ==> k == i
  {
    forall k | 0 <= k < |styles| && styles[k].Held() == table && k != i ensures false {
      var rest := styles[i := UNLOADED];
      UsersUpdate(styles, i, UNLOADED, table);
      UsersSome(rest, k, table);
    }
  }

  /** Once every font is unloaded, no table is left in memory and every entry is free again. */
  lemma {:induction false} NothingLeaks(shared: Entries, styles: seq<PerStyle>, live: set<IntervalTable>)
    requires RegistryOk(shared, styles, live) && forall i :: 0 <= i < |styles| ==> styles[i] == UNLOADED
    ensures live == {} && forall k :: 0 <= k < MAX_SHARED_INTERVALS ==> shared[k] == EMPTY_ENTRY
  {
    forall t: IntervalTable ensures Users(styles, t) == 0 {
      UsersNone(styles, t);
    }
    forall k | 0 <= k < MAX_SHARED_INTERVALS ensures shared[k] == EMPTY_ENTRY {
      assert EntryOk(shared[k], styles);
    }
  }

  /** A table of the right length whose first rows are `read`. */
  ghost predicate Candidate(entry: SharedIntervals, count: nat, read: seq<EpdUnicodeInterval>) {
    entry.table != null && entry.count == count && read <= entry.table.rows
  }

  ghost predicate Candidates(candidates: seq<bool>, shared: Entries, count: nat, read: seq<EpdUnicodeInterval>) {
    |candidates| == MAX_SHARED_INTERVALS
    && forall k :: 0 <= k < MAX_SHARED_INTERVALS ==> (candidates[k] <==> Candidate(shared[k], count, read))
  }

  lemma {:induction false} CandidateNext(entry: SharedIntervals, ivs: seq<EpdUnicodeInterval>, j: nat)
    requires j < |ivs| && (entry.table != null ==> entry.count == |entry.table.rows|)
    ensures Candidate(entry, |ivs|, ivs[..j + 1]) <==>
      Candidate(entry, |ivs|, ivs[..j]) && entry.table.rows[j] == ivs[j]
  {
    if entry.table != null && entry.count == |ivs| {
      assert ivs[..j + 1] == ivs[..j] + [ivs[j]];
      assert ivs[..j] <= entry.table.rows && entry.table.rows[j] == ivs[j] ==>
        ivs[..j + 1] == entry.table.rows[..j + 1];
    }
  }
}
