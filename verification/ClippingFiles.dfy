/** The files of one book's clipping store, and what a reader of the card makes of them. */
module ClippingFiles {
  import opened Bytes
  import opened Card
  import opened ClippingCodec

  /** What the next load reads: the store, else its backup. */
  function Recovered(fs: Files, key: nat): Option<Data> {
    if Sidecar(key, Main) in fs then Some(fs[Sidecar(key, Main)])
    else if Sidecar(key, Bak) in fs then Some(fs[Sidecar(key, Bak)])
    else None
  }

  /** The journal without a torn last record. */
  function Whole(journal: Data): Data {
    journal[..|journal| - |journal| % ID_SIZE]
  }

  function Deletions(fs: Files, key: nat): Data {
    if Sidecar(key, Deleted) in fs then Whole(fs[Sidecar(key, Deleted)]) else []
  }

  /** Everything about the book that survives a power cut. */
  datatype Durable = Durable(contents: Option<Data>, deletions: Data)

  function DurableOf(fs: Files, key: nat): Durable {
    Durable(Recovered(fs, key), Deletions(fs, key))
  }

  /** A temporary file changes nothing that survives. */
  lemma {:induction false} TmpIsNotDurable(fs: Files, was: Files, key: nat)
    requires OnlyAt(fs, was, Sidecar(key, Tmp))
    ensures DurableOf(fs, key) == DurableOf(was, key)
  {
  }

  /** From state `from` of the trace on, what survives is always `view`. */
  ghost predicate Steady(trace: seq<Files>, from: nat, key: nat, view: Durable) {
    forall k :: from <= k < |trace| ==> DurableOf(trace[k], key) == view
  }

  /** From state `from` on, what survives is `before` at first and `after` at last, and never anything else. */
  ghost predicate Switches(trace: seq<Files>, from: nat, key: nat, before: Durable, after: Durable) {
    exists m :: from <= m < |trace| && SwitchesAt(trace, from, m, key, before, after)
  }

  ghost predicate SwitchesAt(trace: seq<Files>, from: nat, m: nat, key: nat, before: Durable, after: Durable) {
    && (forall k :: from <= k < m && k < |trace| ==> DurableOf(trace[k], key) == before)
    && Steady(trace, m, key, after)
  }

  /** What a call may do to the card: nothing that survives, or one switch, as its result tells. */
  ghost predicate Atomic(trace: seq<Files>, from: nat, key: nat, before: Durable, after: Durable, done: bool) {
    if done then Switches(trace, from, key, before, after) else Steady(trace, from, key, before)
  }

  lemma {:induction false} AtomicAfterSteady(mid: seq<Files>, trace: seq<Files>, from: nat, key: nat, before: Durable,
                                             after: Durable, done: bool)
    requires from <= |mid| && mid <= trace && Steady(mid, from, key, before)
    requires Atomic(trace, |mid|, key, before, after, done)
    ensures Atomic(trace, from, key, before, after, done)
  {
    assert forall k :: from <= k < |mid| ==> mid[k] == trace[k];
    if done {
      var m :| |mid| <= m < |trace| && SwitchesAt(trace, |mid|, m, key, before, after);
      assert SwitchesAt(trace, from, m, key, before, after);
    }
  }

  /** So far a call has written to the temporary file only. */
  ghost predicate TmpOnly(fs: Files, trace: seq<Files>, was: Files, before: seq<Files>, key: nat) {
    && before <= trace
    && OnlyAt(fs, was, Sidecar(key, Tmp))
    && Steady(trace, |before|, key, DurableOf(was, key))
  }

  lemma {:induction false} TmpOnlyThenTmpOnly(fs: Files, trace: seq<Files>, mid: Files, until: seq<Files>, was: Files,
                                              before: seq<Files>, key: nat)
    requires TmpOnly(mid, until, was, before, key) && TmpOnly(fs, trace, mid, until, key)
    ensures TmpOnly(fs, trace, was, before, key)
  {
    TmpIsNotDurable(mid, was, key);
  }

  lemma {:induction false} TmpOnlySteps(fs: Files, trace: seq<Files>, was: Files, before: seq<Files>, key: nat)
    requires before <= trace && OnlyAt(fs, was, Sidecar(key, Tmp))
    requires forall k :: |before| <= k < |trace| ==> OnlyAt(trace[k], was, Sidecar(key, Tmp))
    ensures TmpOnly(fs, trace, was, before, key)
  {
    forall k | |before| <= k < |trace| ensures DurableOf(trace[k], key) == DurableOf(was, key) {
      TmpIsNotDurable(trace[k], was, key);
    }
  }

  // --- The deletion journal: one ID_SIZE record a deletion ---

  lemma {:induction false} WholeAppend(journal: Data, more: Data)
    requires |journal| % ID_SIZE == 0 && |more| <= ID_SIZE
    ensures Whole(journal + more) == if |more| == ID_SIZE then journal + more else journal
  {
    if |more| == ID_SIZE {
      assert (|journal| + ID_SIZE) % ID_SIZE == 0;
    } else {
      assert (|journal| + |more|) % ID_SIZE == |more|;
    }
  }

  lemma {:induction false} WholeIsWhole(journal: Data)
    ensures |Whole(journal)| % ID_SIZE == 0 && Whole(Whole(journal)) == Whole(journal)
  {
  }

  /** The id a record stands for. */
  function IdOf(record: Data): Data
    requires |record| == ID_SIZE
  {
    CString(Terminated(record))
  }

  /** Of the record's 65 bytes it is the first 64, up to a zero. */
  lemma {:induction false} IdIs(record: Data)
    requires |record| == 65
    ensures var id := IdOf(record);
            |id| <= 64 && id == record[..|id|] && 0 !in id && (|id| < 64 ==> record[|id|] == 0)
  {
    var id, t := CString(Terminated(record)), Terminated(record);
    assert forall k :: 0 <= k < |id| ==> id[k] != 0 && t[k] == id[k];
    assert t[64] == 0;
  }

  /** The ids of the whole records, oldest first. */
  function Ids(journal: Data): seq<Data> {
    if |journal| < ID_SIZE then [] else [IdOf(journal[..ID_SIZE])] + Ids(journal[ID_SIZE..])
  }

  /** The deletions still to report: the records' ids, in order, but for those of live clippings. */
  function Pending(journal: Data, live: set<Data>): seq<Data> {
    if |journal| < ID_SIZE then []
    else
      var id := IdOf(journal[..ID_SIZE]);
      (if id in live then [] else [id]) + Pending(journal[ID_SIZE..], live)
  }

  lemma {:induction false} IdsAppend(journal: Data, record: Data)
    requires |journal| % ID_SIZE == 0 && |record| == ID_SIZE
    ensures Ids(journal + record) == Ids(journal) + [IdOf(record)]
  {
    if journal == [] {
      assert journal + record == record;
      assert record[..ID_SIZE] == record;
    } else {
      assert (journal + record)[..ID_SIZE] == journal[..ID_SIZE];
      assert (journal + record)[ID_SIZE..] == journal[ID_SIZE..] + record;
      IdsAppend(journal[ID_SIZE..], record);
    }
  }

  lemma {:induction false} PendingStep(journal: Data, at: nat, live: set<Data>)
    requires at + ID_SIZE <= |journal|
    ensures var id := IdOf(journal[at..at + ID_SIZE]);
            Pending(journal[at..], live) == (if id in live then [] else [id]) + Pending(journal[at + ID_SIZE..], live)
  {
    assert journal[at..][..ID_SIZE] == journal[at..at + ID_SIZE];
    assert journal[at..][ID_SIZE..] == journal[at + ID_SIZE..];
  }

  /** Every record names a clipping, as those the store writes do. */
  ghost predicate Named(journal: Data) {
    [] !in Ids(journal)
  }

  lemma {:induction false} NamedRecord(journal: Data, at: nat)
    requires Named(journal) && at % ID_SIZE == 0 && at + ID_SIZE <= |journal|
    ensures IdOf(journal[at..at + ID_SIZE]) != []
    decreases at
  {
    if at == 0 {
      assert journal[0..ID_SIZE] == journal[..ID_SIZE];
    } else {
      NamedRecord(journal[ID_SIZE..], at - ID_SIZE);
      assert journal[ID_SIZE..][at - ID_SIZE..at] == journal[at..at + ID_SIZE];
    }
  }

  /** Records `from` up to `to` report nothing. */
  ghost predicate Silent(journal: Data, from: nat, to: nat, live: set<Data>) {
    from <= to <= |journal| && to % ID_SIZE == 0 && Pending(journal[from..], live) == Pending(journal[to..], live)
  }

  /** The record at `to` is the next to report. */
  ghost predicate Reported(journal: Data, from: nat, to: nat, live: set<Data>, id: Data) {
    && from < to <= |journal| && to % ID_SIZE == 0
    && Pending(journal[from..], live) == [id] + Pending(journal[to..], live)
  }

  lemma NextRecordFits(length: nat, to: nat)
    requires length % ID_SIZE == 0 && to % ID_SIZE == 0 && to < length
    ensures to + ID_SIZE <= length && (to + ID_SIZE) % ID_SIZE == 0
  {
  }

  lemma {:induction false} ScanStep(journal: Data, from: nat, to: nat, live: set<Data>)
    requires Silent(journal, from, to, live) && |journal| % ID_SIZE == 0 && to < |journal|
    ensures to + ID_SIZE <= |journal|
    ensures var id := IdOf(journal[to..to + ID_SIZE]);
            && (if id in live then Silent(journal, from, to + ID_SIZE, live)
                else Reported(journal, from, to + ID_SIZE, live, id))
            && (Named(journal) ==> id != [])
  {
    NextRecordFits(|journal|, to);
    PendingStep(journal, to, live);
    if Named(journal) {
      NamedRecord(journal, to);
    }
  }

  /** Nothing is reported that was not recorded, nothing live is reported, and nothing else is lost. */
  lemma {:induction false} PendingIsExact(journal: Data, live: set<Data>, id: Data)
    ensures id in Pending(journal, live) <==> id in Ids(journal) && id !in live
  {
    if |journal| >= ID_SIZE {
      PendingIsExact(journal[ID_SIZE..], live, id);
    }
  }

  // --- Runs ---

  /** A call of the store's interface that writes, with what it would commit. */
  datatype Call =
    | Rewrite(contents: Data)
    | Removal(record: Data, contents: Data)
    | Finish

  /** A queued record is whole and names a clipping. */
  predicate Proper(call: Call) {
    call.Removal? && call.record != [] ==> |call.record| == ID_SIZE && IdOf(call.record) != []
  }

  function Queued(call: Call, before: Durable): Durable
    requires call.Removal?
  {
    before.(deletions := before.deletions + call.record)
  }

  /** What the card says when the call is done. */
  function After(call: Call, before: Durable): Durable {
    match call
    case Rewrite(contents) => before.(contents := Some(contents))
    case Removal(_, contents) => Queued(call, before).(contents := Some(contents))
    case Finish => before.(deletions := [])
  }

  /** What the card may say when the call is cut short anywhere, fails or succeeds. */
  predicate MayLeave(call: Call, before: Durable, now: Durable) {
    now == before || now == After(call, before) || (call.Removal? && now == Queued(call, before))
  }

  /** A run of calls, each left at any of its states: `states[i + 1]` is what call `i` left. */
  ghost predicate Run(calls: seq<Call>, states: seq<Durable>) {
    && |states| == |calls| + 1
    && (forall i :: 0 <= i < |calls| ==> Proper(calls[i]) && MayLeave(calls[i], states[i], states[i + 1]))
    && |states[0].deletions| % ID_SIZE == 0
  }

  lemma {:induction false} RunWhole(calls: seq<Call>, states: seq<Durable>, n: nat)
    requires Run(calls, states) && n < |states|
    ensures |states[n].deletions| % ID_SIZE == 0
  {
    if n > 0 {
      RunWhole(calls, states, n - 1);
      assert MayLeave(calls[n - 1], states[n - 1], states[n]) && Proper(calls[n - 1]);
    }
  }

  /** The journal of a run only ever holds records that name a clipping. */
  lemma {:induction false} RunNamed(calls: seq<Call>, states: seq<Durable>, n: nat)
    requires Run(calls, states) && n < |states| && Named(states[0].deletions)
    ensures Named(states[n].deletions)
  {
    if n > 0 {
      RunNamed(calls, states, n - 1);
      RunWhole(calls, states, n - 1);
      assert MayLeave(calls[n - 1], states[n - 1], states[n]) && Proper(calls[n - 1]);
      if calls[n - 1].Removal? && calls[n - 1].record != [] {
        IdsAppend(states[n - 1].deletions, calls[n - 1].record);
      } else {
        assert states[n - 1].deletions + [] == states[n - 1].deletions;
      }
    }
  }

  /** Crash safety of any run: what the next load reads is the complete contents of the newest call that took
      effect, or what was there at the start. */
  lemma {:induction false} RunRecoversNewest(calls: seq<Call>, states: seq<Durable>, n: nat) returns (newest: int)
    requires Run(calls, states) && n < |states|
    ensures -1 <= newest < n
    ensures newest == -1 ==> states[n].contents == states[0].contents
    ensures newest >= 0 ==> !calls[newest].Finish? && states[newest + 1] == After(calls[newest], states[newest])
                            && states[n].contents == Some(calls[newest].contents)
    ensures forall i :: newest < i < n ==> states[i + 1].contents == states[i].contents
  {
    newest := -1;
    if n > 0 {
      newest := RunRecoversNewest(calls, states, n - 1);
      assert MayLeave(calls[n - 1], states[n - 1], states[n]);
      if !calls[n - 1].Finish? && states[n] == After(calls[n - 1], states[n - 1])
         && states[n].contents != states[n - 1].contents
      {
        newest := n - 1;
      }
    }
  }

  lemma {:induction false} CallKeepsDeletion(call: Call, before: Durable, after: Durable, id: Data)
    requires MayLeave(call, before, after) && Proper(call) && !call.Finish?
    requires |before.deletions| % ID_SIZE == 0 && id in Ids(before.deletions)
    ensures id in Ids(after.deletions)
  {
    if after.deletions != before.deletions {
      IdsAppend(before.deletions, call.record);
    }
  }

  /** A removal that took effect stays in the journal until the deletions are finished, whatever is cut short. */
  lemma {:induction false} RunKeepsDeletions(calls: seq<Call>, states: seq<Durable>, i: nat, n: nat)
    requires Run(calls, states) && i < n < |states|
    requires calls[i].Removal? && |calls[i].record| == ID_SIZE
    requires states[i + 1] == After(calls[i], states[i])
    requires forall j :: i < j < n ==> !calls[j].Finish?
    ensures IdOf(calls[i].record) in Ids(states[n].deletions)
    decreases n
  {
    assert MayLeave(calls[n - 1], states[n - 1], states[n]) && Proper(calls[n - 1]);
    RunWhole(calls, states, n - 1);
    if n == i + 1 {
      IdsAppend(states[i].deletions, calls[i].record);
    } else {
      RunKeepsDeletions(calls, states, i, n - 1);
      CallKeepsDeletion(calls[n - 1], states[n - 1], states[n], IdOf(calls[i].record));
    }
  }
}
