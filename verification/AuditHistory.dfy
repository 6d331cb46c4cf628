/**
 Whole histories of the replicated audit log: any sequence of Raft appends (with
 any submitted hash and time), exports truncated to any limit, and restores of
 snapshots exported earlier in the same history.
 */
module AuditHistory {
  import opened Outcomes
  import opened AuditChain
  import opened AuditLog
  import opened Numbers

  datatype Step =
    | Append(submitted: Entry, now: Timestamp)
    | Export(limit: int)
    | Restore(snapshot: nat)

  datatype State = State(log: seq<Entry>, snapshots: seq<seq<Record>>)

  ghost function Next(d: Digest, s: State, step: Step): State {
    match step
    case Append(submitted, now) => s.(log := Appended(s.log, Stamped(d, s.log, submitted, now)))
    case Export(limit) => s.(snapshots := s.snapshots + [Exported(s.log, limit)])
    case Restore(i) =>
      if i < |s.snapshots| && Restorable(d, s.snapshots[i]) then s.(log := Imported(s.snapshots[i])) else s
  }

  /** The state after a history that starts with an empty log. */
  ghost function After(d: Digest, history: seq<Step>): State {
    if history == [] then State([], [])
    else Next(d, After(d, history[..|history| - 1]), history[|history| - 1])
  }

  // ------------------------------------------------------------- what is kept

  ghost predicate Portable(records: seq<Record>) {
    forall i :: 0 <= i < |records| ==> records[i].hash != "" && Storable(records[i])
  }

  ghost predicate Inv(d: Digest, s: State) {
    && Numbered(s.log)
    && Chained(d, Records(s.log))
    && Portable(Records(s.log))
    && forall i :: 0 <= i < |s.snapshots| ==> Portable(s.snapshots[i])
  }

  lemma AppendKeeps(d: Digest, s: State, submitted: Entry, now: Timestamp)
    requires d.Lawful() && Inv(d, s)
    ensures Inv(d, Next(d, s, Append(submitted, now)))
  {
    hide Payload;
    var e := Stamped(d, s.log, submitted, now);
    if e.Valid() {
      var before, after := Records(s.log), Records(Appended(s.log, e));
      assert after == before + [e.record];
      forall i | 0 <= i < |after| ensures Linked(d, after, i) {
        assert HashBefore(after, i) == HashBefore(before, i);
        if i < |before| { assert Linked(d, before, i); }
      }
    }
  }

  lemma OldestPortable(log: seq<Entry>, k: nat)
    requires k <= |log| && Portable(Records(log))
    ensures Portable(Records(Oldest(log, k)))
  {
    hide SortEntries;
    forall i | 0 <= i < k
      ensures Records(Oldest(log, k))[i].hash != "" && Storable(Records(Oldest(log, k))[i])
    {
      var m := Origins(log, i);
      assert Records(log)[m] == Records(Oldest(log, k))[i];
    }
  }

  /** Importing portable records that pass validation gives a chained log with those records. */
  lemma ImportedWhole(d: Digest, records: seq<Record>)
    requires Portable(records) && Restorable(d, records)
    ensures Records(Imported(records)) == records && Chained(d, records)
  {
    assert records[..|records|] == records;
    if records != [] { assert records[0].hash != ""; }
  }

  lemma NextKeeps(d: Digest, s: State, step: Step)
    requires d.Lawful() && Inv(d, s)
    ensures Inv(d, Next(d, s, step))
  {
    match step
    case Append(submitted, now) => AppendKeeps(d, s, submitted, now);
    case Export(limit) => OldestPortable(s.log, ExportSize(s.log, limit));
    case Restore(i) =>
      if i < |s.snapshots| && Restorable(d, s.snapshots[i]) {
        ImportedWhole(d, s.snapshots[i]);
      }
  }

  lemma {:induction false} HistoryKeeps(d: Digest, history: seq<Step>)
    requires d.Lawful()
    ensures Inv(d, After(d, history))
  {
    if history != [] {
      HistoryKeeps(d, history[..|history| - 1]);
      NextKeeps(d, After(d, history[..|history| - 1]), history[|history| - 1]);
    }
  }

  // ------------------------------------------------------------- main results

  /** Every log of every history is accepted in append order, whatever hashes and times were submitted. */
  lemma EveryLogIsChained(d: Digest, history: seq<Step>)
    requires d.Lawful()
    ensures Chained(d, Records(After(d, history).log))
    ensures Numbered(After(d, history).log)
  {
    HistoryKeeps(d, history);
  }

  /** The appends of a history that the repository accepts. */
  function Accepted(history: seq<Step>): seq<Step> {
    if history == [] then []
    else
      var n := |history| - 1;
      var step := history[n];
      Accepted(history[..n])
      + if step.Append? && step.submitted.record.event.action != "" && step.submitted.record.event.status != ""
        then [step] else []
  }

  ghost predicate HoldsAll(log: seq<Entry>, appends: seq<Step>) {
    && |log| == |appends|
    && forall i :: 0 <= i < |log| ==> appends[i].Append? && Holds(log[i], appends[i].submitted, appends[i].now)
  }

  /** Without a restore, the log holds the accepted submissions, all of them, unchanged and in order. */
  lemma {:induction false} LogHoldsSubmissions(d: Digest, history: seq<Step>)
    requires forall i :: 0 <= i < |history| ==> !history[i].Restore?
    ensures HoldsAll(After(d, history).log, Accepted(history))
  {
    hide EntryHash, Exported;
    if history != [] {
      var n := |history| - 1;
      LogHoldsSubmissions(d, history[..n]);
      assert !history[n].Restore?;
    }
  }

  /** Reading the log by time does not collide with reading it by append. */
  ghost predicate CleanReads(d: Digest, log: seq<Entry>, k: nat)
    requires k <= |log|
  {
    && CollisionFree(d, Records(log), Records(log))
    && CollisionFree(d, Records(Oldest(log, k)), Records(log))
  }

  /** Without a signing key `Verify` answers valid for exactly the logs in time order within its read limit. */
  lemma VerifyValidIff(d: Digest, history: seq<Step>, signature: string, at: Timestamp)
    requires d.Lawful()
    requires var log := After(d, history).log; CleanReads(d, log, Min(VERIFY_LIMIT, |log|))
    ensures var log := After(d, history).log;
            Verifies(d, log, None, signature, at) <==> InOrder(log, |log|) && |log| <= 1_000_000
  {
    EveryLogIsChained(d, history);
    VerifiesIff(d, After(d, history).log, signature, at);
  }

  /** With a key, moreover every entry has to carry the signature of its hash, and the head that of the last one. */
  lemma SignedVerifyValidIff(d: Digest, history: seq<Step>, signer: Signer, signature: string, at: Timestamp)
    requires d.Lawful()
    requires var log := After(d, history).log; CleanReads(d, log, Min(VERIFY_LIMIT, |log|))
    ensures var log := After(d, history).log;
            Verifies(d, log, Some(signer), signature, at) <==>
            && InOrder(log, |log|) && |log| <= 1_000_000
            && (forall i :: 0 <= i < |log| ==>
                  log[i].signature != "" && log[i].signature == signer.entry(log[i].record.hash))
            && signature != "" && signature == signer.head(if log == [] then "" else log[|log| - 1].record.hash, at)
  {
    hide SortEntries, Payload, Body, CleanReads, Chained, Verifies, After;
    var log := After(d, history).log;
    EveryLogIsChained(d, history);
    VerifiesIff(d, log, signature, at);
    if InOrder(log, |log|) && |log| <= VERIFY_LIMIT {
      InOrderIsOldest(log, |log|);
      assert ReadForVerify(log) == log[..|log|] == log;
    }
    VerifiesSigned(d, log, signer, signature, at);
  }

  lemma VerifiesSigned(d: Digest, log: seq<Entry>, signer: Signer, signature: string, at: Timestamp)
    ensures Verifies(d, log, Some(signer), signature, at) ==> Verifies(d, log, None, signature, at)
    ensures ReadForVerify(log) == log ==>
              (Verifies(d, log, Some(signer), signature, at) <==>
               && Verifies(d, log, None, signature, at)
               && (forall i :: 0 <= i < |log| ==>
                     log[i].signature != "" && log[i].signature == signer.entry(log[i].record.hash))
               && signature != "" && signature == signer.head(if log == [] then "" else log[|log| - 1].record.hash, at))
  {
    hide SortEntries, Chained;
  }

  lemma VerifiesIff(d: Digest, log: seq<Entry>, signature: string, at: Timestamp)
    requires d.Lawful() && Chained(d, Records(log)) && Numbered(log)
    requires CleanReads(d, log, Min(VERIFY_LIMIT, |log|))
    ensures Verifies(d, log, None, signature, at) <==> InOrder(log, |log|) && |log| <= VERIFY_LIMIT
  {
    hide SortEntries, Payload, Body;
    var k := Min(VERIFY_LIMIT, |log|);
    OldestChainedIff(d, log, k);
    if InOrder(log, k) {
      assert Records(log[..k]) == Records(log)[..k];
      assert Head(Records(log)[..k]) == HashBefore(Records(log), k);
      if k < |log| && HashBefore(Records(log), k) == Head(Records(log)) {
        HashesDistinct(d, Records(log), k - 1, |log| - 1);
      }
    }
  }

  /**
   An export can be restored exactly when no exported entry was overtaken; the restored log is then the
   exported part.
   */
  lemma ExportRestoresIff(d: Digest, history: seq<Step>, limit: int)
    requires d.Lawful()
    requires var log := After(d, history).log; CleanReads(d, log, ExportSize(log, limit))
    ensures var log, k := After(d, history).log, ExportSize(After(d, history).log, limit);
            Restorable(d, Exported(log, limit)) <==> InOrder(log, k)
    ensures var log, k := After(d, history).log, ExportSize(After(d, history).log, limit);
            InOrder(log, k) ==> Records(Imported(Exported(log, limit))) == Records(log)[..k]
  {
    hide SortEntries, Payload, Body;
    HistoryKeeps(d, history);
    var log := After(d, history).log;
    var k := ExportSize(log, limit);
    OldestPortable(log, k);
    OldestChainedIff(d, log, k);
    if Restorable(d, Exported(log, limit)) {
      ImportedWhole(d, Exported(log, limit));
    }
    assert Records(log[..k]) == Records(log)[..k];
  }

  // ----------------------------------------- histories whose clocks never go back

  function EffectiveTime(submitted: Entry, now: Timestamp): int {
    if submitted.record.event.timestamp.instant == ZERO_INSTANT then now.instant
    else submitted.record.event.timestamp.instant
  }

  /** Every append carries a time no earlier than every append before it. */
  ghost predicate ClocksAgree(history: seq<Step>) {
    forall i, j :: 0 <= i < j < |history| && history[i].Append? && history[j].Append? ==>
      EffectiveTime(history[i].submitted, history[i].now) <= EffectiveTime(history[j].submitted, history[j].now)
  }

  ghost predicate Ascending(records: seq<Record>, bound: int) {
    && (forall i, j :: 0 <= i < j < |records| ==>
          records[i].event.timestamp.instant <= records[j].event.timestamp.instant)
    && (forall i :: 0 <= i < |records| ==> records[i].event.timestamp.instant <= bound)
  }

  ghost predicate AllAscending(s: State, bound: int) {
    && Ascending(Records(s.log), bound)
    && forall i :: 0 <= i < |s.snapshots| ==> Ascending(s.snapshots[i], bound)
  }

  lemma AscendingInOrder(log: seq<Entry>, bound: int, k: nat)
    requires Ascending(Records(log), bound) && k <= |log|
    ensures InOrder(log, k)
  {
    forall i, j | 0 <= i < k && i < j < |log|
      ensures log[i].record.event.timestamp.instant <= log[j].record.event.timestamp.instant
    {
      assert Records(log)[i] == log[i].record && Records(log)[j] == log[j].record;
    }
  }

  lemma AscendingNext(d: Digest, s: State, step: Step, bound: int, bound': int)
    requires d.Lawful() && Inv(d, s) && AllAscending(s, bound) && bound <= bound'
    requires step.Append? ==> bound <= EffectiveTime(step.submitted, step.now) <= bound'
    ensures AllAscending(Next(d, s, step), bound')
  {
    hide SortEntries, Payload, Body;
    match step
    case Append(submitted, now) =>
      var e := Stamped(d, s.log, submitted, now);
      assert Records(s.log + [e.(id := |s.log| + 1)]) == Records(s.log) + [e.record];
    case Export(limit) =>
      var k := ExportSize(s.log, limit);
      AscendingInOrder(s.log, bound, k);
      InOrderIsOldest(s.log, k);
      assert Exported(s.log, limit) == Records(s.log)[..k];
    case Restore(i) =>
      if i < |s.snapshots| && Restorable(d, s.snapshots[i]) {
        ImportedWhole(d, s.snapshots[i]);
      }
  }

  lemma {:induction false} AscendingHistory(d: Digest, history: seq<Step>, bound: int)
    requires d.Lawful() && ClocksAgree(history)
    requires forall i :: 0 <= i < |history| && history[i].Append? ==>
                           EffectiveTime(history[i].submitted, history[i].now) <= bound
    ensures AllAscending(After(d, history), bound)
  {
    if history != [] {
      var n := |history| - 1;
      var front, last := history[..n], history[n];
      forall i, j | 0 <= i < j < n && front[i].Append? && front[j].Append?
        ensures EffectiveTime(front[i].submitted, front[i].now) <= EffectiveTime(front[j].submitted, front[j].now)
      {
        assert front[i] == history[i] && front[j] == history[j];
      }
      var bound0 := if last.Append? then EffectiveTime(last.submitted, last.now) else bound;
      forall i | 0 <= i < n && front[i].Append? ensures EffectiveTime(front[i].submitted, front[i].now) <= bound0 {
        assert front[i] == history[i];
      }
      AscendingHistory(d, front, bound0);
      HistoryKeeps(d, front);
      AscendingNext(d, After(d, front), last, bound0, bound);
    }
  }

  /** With clocks that agree, every log within the read limit verifies and every export of it can be restored. */
  lemma AgreedClocksVerify(d: Digest, history: seq<Step>, limit: int, signature: string, at: Timestamp)
    requires d.Lawful() && ClocksAgree(history)
    ensures var log := After(d, history).log;
            |log| <= VERIFY_LIMIT ==> Verifies(d, log, None, signature, at)
    ensures Restorable(d, Exported(After(d, history).log, limit))
  {
    hide SortEntries, Payload, Body;
    var log := After(d, history).log;
    var bound := Latest(history);
    AscendingHistory(d, history, bound);
    EveryLogIsChained(d, history);
    var k := ExportSize(log, limit);
    AscendingInOrder(log, bound, k);
    AscendingInOrder(log, bound, |log|);
    InOrderIsOldest(log, k);
    InOrderIsOldest(log, |log|);
    PrefixChained(d, Records(log), k);
    assert Records(log[..k]) == Records(log)[..k];
    assert log[..|log|] == log;
  }

  ghost function Latest(history: seq<Step>): (t: int)
    ensures forall i :: 0 <= i < |history| && history[i].Append? ==>
                          EffectiveTime(history[i].submitted, history[i].now) <= t
  {
    if history == [] then 0
    else
      var n := |history| - 1;
      var t := Latest(history[..n]);
      assert forall i :: 0 <= i < n ==> history[i] == history[..n][i];
      if history[n].Append? && t < EffectiveTime(history[n].submitted, history[n].now)
      then EffectiveTime(history[n].submitted, history[n].now) else t
  }

  // ----------------------------------------------------------- a skewed clock

  function Sample(instant: int): Entry {
    Entry(0, Record(Event(Timestamp(instant, 0), "root", "kv.read", "app/db", "success", "{}"), ""), "", NO_ORIGIN)
  }

  /** Two nodes whose clocks differ by one tick: an untampered log that `Verify` rejects and no full export restores. */
  lemma SkewedClocksFail(d: Digest, signature: string, at: Timestamp)
    requires d.Lawful()
    requires var log := After(d, [Append(Sample(2), at), Append(Sample(1), at)]).log; CleanReads(d, log, |log|)
    ensures var log := After(d, [Append(Sample(2), at), Append(Sample(1), at)]).log;
            !Verifies(d, log, None, signature, at) && !Restorable(d, Exported(log, 0))
  {
    hide SortEntries, Payload, Body;
    var history := [Append(Sample(2), at), Append(Sample(1), at)];
    SkewedLog(d, at);
    var log := After(d, history).log;
    VerifyValidIff(d, history, signature, at);
    ExportRestoresIff(d, history, 0);
    assert !InOrder(log, 2);
  }

  lemma SkewedLog(d: Digest, at: Timestamp)
    ensures var log := After(d, [Append(Sample(2), at), Append(Sample(1), at)]).log;
            |log| == 2
            && log[0].record.event.timestamp.instant == 2 && log[1].record.event.timestamp.instant == 1
  {
    hide Payload;
    var history := [Append(Sample(2), at), Append(Sample(1), at)];
    assert history[..1] == [history[0]] && history[..1][..0] == [];
    assert After(d, history[..1][..0]) == State([], []);
    var s1 := After(d, history[..1]);
    assert s1 == Next(d, State([], []), history[0]);
    assert After(d, history) == Next(d, s1, history[1]);
  }
}
