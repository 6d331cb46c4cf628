/**
 The replicated audit log: the repository that holds it, the Raft step that
 appends to it, export and restore of its records, and `Verify`.

 The chain follows the order of appends; listing follows the order of
 timestamps, and timestamps are set by the node that submits an entry. The
 results below say exactly when the two agree.
 */
module AuditLog {
  import opened Outcomes
  import opened AuditChain
  import opened Numbers

  /** The descriptive fields that are neither hashed nor exported. */
  datatype Origin = Origin(
    authMethod: string, sourceIP: string, clientIdentity: string,
    failureReason: string, requestID: string, namespace: string)

  const NO_ORIGIN := Origin("", "", "", "", "", "")

  /** The repository refuses entries without action or status. */
  predicate Storable(r: Record) {
    r.event.action != "" && r.event.status != ""
  }

  datatype Entry = Entry(id: int, record: Record, signature: string, origin: Origin) {
    predicate Valid() {
      Storable(record)
    }
  }

  /** The zero `time.Time`: 1 January of year 1, in nanoseconds of the Unix epoch. */
  const ZERO_INSTANT := -62_135_596_800_000_000_000

  const VERIFY_LIMIT := 1_000_000
  const DEFAULT_EXPORT_LIMIT := 10_000
  const DEFAULT_PAGE := 100

  function Records(log: seq<Entry>): (r: seq<Record>)
    ensures |r| == |log|
    ensures forall i :: 0 <= i < |r| ==> r[i] == log[i].record
  {
    seq(|log|, i requires 0 <= i < |log| => log[i].record)
  }

  /** Entries are numbered 1, 2, ... in the order they were appended. */
  ghost predicate Numbered(log: seq<Entry>) {
    forall i :: 0 <= i < |log| ==> log[i].id == i + 1
  }

  // ------------------------------------------------------------------ listing

  predicate Earlier(a: Entry, b: Entry) {
    || a.record.event.timestamp.instant < b.record.event.timestamp.instant
    || (a.record.event.timestamp.instant == b.record.event.timestamp.instant && a.id < b.id)
  }

  predicate Precedes(ascending: bool, a: Entry, b: Entry) {
    if ascending then Earlier(a, b) else Earlier(b, a)
  }

  ghost predicate Sorted(ascending: bool, s: seq<Entry>) {
    forall i, j :: 0 <= i < j < |s| ==> !Precedes(ascending, s[j], s[i])
  }

  /** How many entries of a sorted list come strictly before `e`. */
  function Rank(ascending: bool, e: Entry, s: seq<Entry>): (k: nat)
    ensures k <= |s|
    ensures forall i :: 0 <= i < k ==> Precedes(ascending, s[i], e)
    ensures k < |s| ==> !Precedes(ascending, s[k], e)
  {
    if s == [] || !Precedes(ascending, s[0], e) then 0 else 1 + Rank(ascending, e, s[1..])
  }

  function Insert(ascending: bool, e: Entry, s: seq<Entry>): (r: seq<Entry>)
    requires Sorted(ascending, s)
    ensures Sorted(ascending, r)
    ensures multiset(r) == multiset(s) + multiset{e}
  {
    var k := Rank(ascending, e, s);
    InsertSorts(ascending, e, s, k);
    s[..k] + [e] + s[k..]
  }

  lemma InsertSorts(ascending: bool, e: Entry, s: seq<Entry>, k: nat)
    requires Sorted(ascending, s) && k == Rank(ascending, e, s)
    ensures Sorted(ascending, s[..k] + [e] + s[k..])
    ensures multiset(s[..k] + [e] + s[k..]) == multiset(s) + multiset{e}
  {
    hide Precedes, Rank, Sorted;
    forall i | 0 <= i < k ensures !Precedes(ascending, e, s[i]) {
      PrecedesOneWay(ascending, s[i], e);
    }
    forall i | k <= i < |s| ensures !Precedes(ascending, s[i], e) {
      NotBeforeLater(ascending, s, k, i, e);
    }
    InsertedSorted(ascending, e, s, k);
    assert s == s[..k] + s[k..];
  }

  lemma NotBeforeLater(ascending: bool, s: seq<Entry>, k: nat, i: nat, e: Entry)
    requires Sorted(ascending, s) && k <= i < |s| && !Precedes(ascending, s[k], e)
    ensures !Precedes(ascending, s[i], e)
  {
    hide Precedes;
    if k < i {
      NotBefore(ascending, s[i], s[k], e);
    }
  }

  lemma InsertedSorted(ascending: bool, e: Entry, s: seq<Entry>, k: nat)
    requires Sorted(ascending, s) && k <= |s|
    requires forall i :: 0 <= i < k ==> !Precedes(ascending, e, s[i])
    requires forall i :: k <= i < |s| ==> !Precedes(ascending, s[i], e)
    ensures Sorted(ascending, s[..k] + [e] + s[k..])
  {
    hide Precedes;
    var r := s[..k] + [e] + s[k..];
    forall i, j | 0 <= i < j < |r| ensures !Precedes(ascending, r[j], r[i]) {
      assert r[i] == if i < k then s[i] else if i == k then e else s[i - 1];
      assert r[j] == if j < k then s[j] else if j == k then e else s[j - 1];
    }
  }

  lemma PrecedesOneWay(ascending: bool, a: Entry, b: Entry)
    ensures Precedes(ascending, a, b) ==> !Precedes(ascending, b, a)
  {
  }

  lemma NotBefore(ascending: bool, a: Entry, b: Entry, c: Entry)
    requires !Precedes(ascending, a, b) && !Precedes(ascending, b, c)
    ensures !Precedes(ascending, a, c)
  {
  }

  function SortEntries(ascending: bool, s: seq<Entry>): (r: seq<Entry>)
    ensures Sorted(ascending, r)
    ensures multiset(r) == multiset(s)
    ensures |r| == |s|
  {
    if s == [] then []
    else
      assert s == [s[0]] + s[1..];
      var r := Insert(ascending, s[0], SortEntries(ascending, s[1..]));
      assert |multiset(r)| == |multiset(s)|;
      r
  }

  datatype ListOptions = ListOptions(since: Option<int>, limit: int, offset: nat, ascending: bool)

  function Since(entries: seq<Entry>, since: Option<int>): seq<Entry> {
    if entries == [] then []
    else
      var last := entries[|entries| - 1];
      Since(entries[..|entries| - 1], since)
      + if since.Some? && last.record.event.timestamp.instant < since.value then [] else [last]
  }

  function Page(entries: seq<Entry>, offset: nat, limit: int): seq<Entry> {
    var size := if limit <= 0 then DEFAULT_PAGE else limit;
    if offset > |entries| then []
    else if offset + size > |entries| then entries[offset..]
    else entries[offset..offset + size]
  }

  function Listed(entries: seq<Entry>, opts: ListOptions): seq<Entry> {
    Page(SortEntries(opts.ascending, Since(entries, opts.since)), opts.offset, opts.limit)
  }

  /** The `k` oldest entries by timestamp: what export and `Verify` read. */
  function Oldest(log: seq<Entry>, k: nat): seq<Entry>
    requires k <= |log|
  {
    SortEntries(true, log)[..k]
  }

  lemma {:induction false} SinceNone(entries: seq<Entry>)
    ensures Since(entries, None) == entries
  {
    if entries != [] {
      var n := |entries| - 1;
      SinceNone(entries[..n]);
      assert entries == entries[..n] + [entries[n]];
    }
  }

  lemma ListedOldest(entries: seq<Entry>, limit: int)
    requires limit > 0
    ensures Listed(entries, ListOptions(None, limit, 0, true)) == Oldest(entries, Min(limit, |entries|))
  {
    hide SortEntries, Since;
    SinceNone(entries);
    assert SortEntries(true, entries)[..|entries|] == SortEntries(true, entries);
  }

  /** `a` may stand before `b`: older entries first when ascending, newer first otherwise; then by id the same way. */
  predicate Follows(ascending: bool, a: Entry, b: Entry) {
    var s, t := a.record.event.timestamp.instant, b.record.event.timestamp.instant;
    if ascending then s < t || (s == t && a.id <= b.id) else s > t || (s == t && a.id >= b.id)
  }

  /** All entries that are not older than asked for, each as often as in the log, in the order asked for. */
  ghost predicate Lists(entries: seq<Entry>, opts: ListOptions, all: seq<Entry>) {
    && (forall e: Entry :: multiset(all)[e] ==
                    if opts.since.Some? && e.record.event.timestamp.instant < opts.since.value then 0
                    else multiset(entries)[e])
    && forall i, j :: 0 <= i < j < |all| ==> Follows(opts.ascending, all[i], all[j])
  }

  /** Where the page ends: after the number of entries asked for, 100 if none is, or at the end. */
  function PageEnd(opts: ListOptions, size: nat): (end: nat)
    ensures Min(opts.offset, size) <= end <= size
  {
    Min(opts.offset + if opts.limit <= 0 then 100 else opts.limit, size)
  }

  /** The page is the part asked for of such a list of everything. */
  ghost predicate IsPage(entries: seq<Entry>, opts: ListOptions, page: seq<Entry>) {
    exists all :: Lists(entries, opts, all) && page == all[Min(opts.offset, |all|)..PageEnd(opts, |all|)]
  }

  lemma {:induction false} SinceKeeps(entries: seq<Entry>, since: Option<int>, e: Entry)
    ensures multiset(Since(entries, since))[e] ==
            if since.Some? && e.record.event.timestamp.instant < since.value then 0 else multiset(entries)[e]
  {
    if entries != [] {
      var n := |entries| - 1;
      SinceKeeps(entries[..n], since, e);
      assert entries == entries[..n] + [entries[n]];
    }
  }

  lemma SortedLists(entries: seq<Entry>, opts: ListOptions)
    ensures Lists(entries, opts, SortEntries(opts.ascending, Since(entries, opts.since)))
  {
    hide SortEntries, Since;
    var all := SortEntries(opts.ascending, Since(entries, opts.since));
    forall e: Entry
      ensures multiset(all)[e] == if opts.since.Some? && e.record.event.timestamp.instant < opts.since.value then 0
                                  else multiset(entries)[e]
    {
      SinceKeeps(entries, opts.since, e);
    }
    forall i, j | 0 <= i < j < |all| ensures Follows(opts.ascending, all[i], all[j]) {
      assert !Precedes(opts.ascending, all[j], all[i]);
    }
  }

  lemma ListedLists(entries: seq<Entry>, opts: ListOptions)
    ensures IsPage(entries, opts, Listed(entries, opts))
  {
    hide SortEntries, Since, Lists;
    SortedLists(entries, opts);
  }

  // --------------------------------------------------------------- repository

  class AuditRepository {
    var entries: seq<Entry>
    var nextID: int

    ghost predicate Valid()
      reads this
    {
      Numbered(entries) && nextID == |entries| + 1
    }

    constructor ()
      ensures Valid() && entries == []
    {
      entries, nextID := [], 1;
    }

    method Append(entry: Entry) returns (ok: bool)
      requires Valid()
      modifies this
      ensures Valid()
      ensures ok <==> entry.record.event.action != "" && entry.record.event.status != ""
      ensures ok ==> |entries| == |old(entries)| + 1 && entries[..|old(entries)|] == old(entries)
                     && entries[|old(entries)|] == entry.(id := |entries|)
      ensures !ok ==> entries == old(entries)
      ensures entries == Appended(old(entries), entry)
    {
      if !entry.Valid() {
        return false;
      }
      entries := entries + [entry.(id := nextID)];
      nextID := nextID + 1;
      return true;
    }

    method List(opts: ListOptions) returns (page: seq<Entry>)
      ensures page == Listed(entries, opts)
      ensures IsPage(entries, opts, page)
    {
      hide SortEntries, IsPage;
      ListedLists(entries, opts);
      var filtered := [];
      for i := 0 to |entries|
        invariant filtered == Since(entries[..i], opts.since)
      {
        assert entries[..i + 1][..i] == entries[..i];
        if !(opts.since.Some? && entries[i].record.event.timestamp.instant < opts.since.value) {
          filtered := filtered + [entries[i]];
        }
      }
      assert entries[..|entries|] == entries;
      var sorted := SortEntries(opts.ascending, filtered);
      var limit := opts.limit;
      if limit <= 0 {
        limit := DEFAULT_PAGE;
      }
      if opts.offset > |sorted| {
        return [];
      }
      var end := opts.offset + limit;
      if end > |sorted| {
        end := |sorted|;
      }
      return sorted[opts.offset..end];
    }

    method LatestHash() returns (hash: string)
      ensures hash == Head(Records(entries))
      ensures hash == if entries == [] then "" else entries[|entries| - 1].record.hash
    {
      return if entries == [] then "" else entries[|entries| - 1].record.hash;
    }

    method Clear()
      modifies this
      ensures Valid() && entries == []
    {
      entries, nextID := [], 1;
    }
  }

  function Appended(log: seq<Entry>, entry: Entry): seq<Entry> {
    if entry.Valid() then log + [entry.(id := |log| + 1)] else log
  }

  // --------------------------------------------------------------- Raft apply

  /** What the state machine stores for a submitted entry: its own time if set, its own hash never. */
  function Stamped(d: Digest, log: seq<Entry>, submitted: Entry, now: Timestamp): Entry {
    var event := if submitted.record.event.timestamp.instant == ZERO_INSTANT
                 then submitted.record.event.(timestamp := now) else submitted.record.event;
    submitted.(record := Record(event, EntryHash(d, Head(Records(log)), event)))
  }

  /** The entry is the submitted one: only its id and hash are new, and its time if it came without one. */
  ghost predicate Holds(entry: Entry, submitted: Entry, now: Timestamp) {
    var event, given := entry.record.event, submitted.record.event;
    && event.actor == given.actor && event.action == given.action && event.resource == given.resource
    && event.status == given.status && event.details == given.details
    && event.timestamp == (if given.timestamp.instant == ZERO_INSTANT then now else given.timestamp)
    && entry.signature == submitted.signature && entry.origin == submitted.origin
  }

  method HandleAuditAppend(d: Digest, repo: AuditRepository, submitted: Entry, now: Timestamp) returns (ok: bool)
    requires repo.Valid()
    modifies repo
    ensures repo.Valid()
    ensures ok == submitted.Valid()
    ensures repo.entries == Appended(old(repo.entries), Stamped(d, old(repo.entries), submitted, now))
    ensures ok ==> |repo.entries| == |old(repo.entries)| + 1
                   && repo.entries[..|old(repo.entries)|] == old(repo.entries)
                   && Holds(repo.entries[|old(repo.entries)|], submitted, now)
    ensures ok ==> HashesText(d, Records(repo.entries), |old(repo.entries)|)
    ensures !ok ==> repo.entries == old(repo.entries)
  {
    var event := submitted.record.event;
    if event.timestamp.instant == ZERO_INSTANT {
      event := event.(timestamp := now);
    }
    var prevHash := repo.LatestHash();
    var entry := submitted.(record := Record(event, EntryHash(d, prevHash, event)));
    ok := repo.Append(entry);
  }

  // ---------------------------------------------------------- export, restore

  function ToRecord(entry: Entry): Record {
    entry.record
  }

  function ToEntry(record: Record): Entry {
    Entry(0, record, "", NO_ORIGIN)
  }

  function ExportSize(log: seq<Entry>, limit: int): (k: nat)
    ensures k <= |log|
  {
    Min(if limit <= 0 then DEFAULT_EXPORT_LIMIT else limit, |log|)
  }

  function Exported(log: seq<Entry>, limit: int): seq<Record> {
    Records(Oldest(log, ExportSize(log, limit)))
  }

  method Export(repo: AuditRepository, auditLimit: int) returns (audit: seq<Record>)
    ensures audit == Exported(repo.entries, auditLimit)
    ensures |audit| == Min(if auditLimit <= 0 then 10_000 else auditLimit, |repo.entries|)
    ensures exists page ::
              && IsPage(repo.entries, ListOptions(None, if auditLimit <= 0 then 10_000 else auditLimit, 0, true), page)
              && Records(page) == audit
  {
    hide SortEntries, Listed, IsPage;
    var limit := auditLimit;
    if limit <= 0 {
      limit := DEFAULT_EXPORT_LIMIT;
    }
    var entries := repo.List(ListOptions(None, limit, 0, true));
    ListedOldest(repo.entries, limit);
    audit := [];
    for i := 0 to |entries|
      invariant audit == Records(entries[..i])
    {
      audit := audit + [ToRecord(entries[i])];
    }
    assert entries[..|entries|] == entries;
  }

  /** Records without any hash pass; otherwise they must form a chain. */
  ghost predicate Restorable(d: Digest, records: seq<Record>) {
    (forall i :: 0 <= i < |records| ==> records[i].hash == "") || Chained(d, records)
  }

  method ValidateAuditRecords(d: Digest, records: seq<Record>) returns (ok: bool)
    ensures ok <==> Restorable(d, records)
    ensures (forall i :: 0 <= i < |records| ==> records[i].hash == "") ==> ok
    ensures (exists i :: 0 <= i < |records| && records[i].hash != "") ==>
              (ok <==> forall i :: 0 <= i < |records| ==> HashesText(d, records, i))
  {
    if |records| == 0 {
      return true;
    }
    var hasHash := false;
    var i := 0;
    while i < |records| && !hasHash
      invariant 0 <= i <= |records|
      invariant !hasHash ==> forall k :: 0 <= k < i ==> records[k].hash == ""
      invariant hasHash ==> exists k :: 0 <= k < |records| && records[k].hash != ""
    {
      hasHash := records[i].hash != "";
      i := i + 1;
    }
    if !hasHash {
      return true;
    }
    var err := ValidateRecordChain(d, records);
    return err.None?;
  }

  /** The log after importing records: those before the first one the repository refuses. */
  function Imported(records: seq<Record>): (log: seq<Entry>)
    ensures Numbered(log)
    ensures |log| <= |records| && Records(log) == records[..|log|]
    ensures |log| < |records| ==> !Storable(records[|log|])
    ensures forall i :: 0 <= i < |log| ==> log[i] == Entry(i + 1, records[i], "", NO_ORIGIN) && Storable(records[i])
  {
    if records == [] then []
    else
      var n := |records| - 1;
      var front := Imported(records[..n]);
      assert records[..n][..|front|] == records[..|front|];
      if |front| < n || !Storable(records[n]) then
        front
      else
        var log := front + [ToEntry(records[n]).(id := n + 1)];
        assert Records(log) == Records(front) + [records[n]] == records;
        log
  }

  method Restore(d: Digest, repo: AuditRepository, snapshot: seq<Record>) returns (ok: bool)
    requires repo.Valid()
    modifies repo
    ensures repo.Valid()
    ensures ok <==> Restorable(d, snapshot) && |Imported(snapshot)| == |snapshot|
    ensures repo.entries == if Restorable(d, snapshot) then Imported(snapshot) else old(repo.entries)
    ensures ok ==> Records(repo.entries) == snapshot
                   && forall i :: 0 <= i < |snapshot| ==> repo.entries[i] == Entry(i + 1, snapshot[i], "", NO_ORIGIN)
  {
    var valid := ValidateAuditRecords(d, snapshot);
    if !valid {
      return false;
    }
    repo.Clear();
    for i := 0 to |snapshot|
      invariant repo.Valid()
      invariant repo.entries == Imported(snapshot[..i]) && |repo.entries| == i
    {
      assert snapshot[..i + 1][..i] == snapshot[..i];
      var stored := repo.Append(ToEntry(snapshot[i]));
      if !stored {
        ImportedStops(snapshot, i);
        return false;
      }
    }
    assert snapshot[..|snapshot|] == snapshot;
    return true;
  }

  lemma {:induction false} ImportedStops(records: seq<Record>, k: nat)
    requires k < |records| && |Imported(records[..k])| == k && !Storable(records[k])
    ensures Imported(records) == Imported(records[..k])
    decreases |records|
  {
    var n := |records| - 1;
    if k < n {
      assert records[..n][..k] == records[..k];
      ImportedStops(records[..n], k);
    } else {
      assert records[..n] == records[..k];
    }
  }

  // ------------------------------------------------------------------- verify

  /** HMAC of an entry hash, and of a head hash with the time it was signed at. */
  datatype Signer = Signer(entry: string -> string, head: (string, Timestamp) -> string)

  datatype Fault = NoFault | BrokenLink(id: int) | Unsigned(id: int) | BadSignature(id: int)
                 | HeadMismatch | HeadUnsigned | BadHeadSignature

  datatype VerifyResult = VerifyResult(valid: bool, headHash: string, fault: Fault)

  function ReadForVerify(log: seq<Entry>): seq<Entry> {
    Oldest(log, Min(VERIFY_LIMIT, |log|))
  }

  ghost predicate Signed(signer: Signer, entry: Entry) {
    entry.signature != "" && entry.signature == signer.entry(entry.record.hash)
  }

  ghost predicate Verifies(d: Digest, log: seq<Entry>, signer: Option<Signer>, signature: string, at: Timestamp) {
    && Chained(d, Records(ReadForVerify(log)))
    && Head(Records(ReadForVerify(log))) == Head(Records(log))
    && (signer.Some? ==>
          && (forall i :: 0 <= i < |ReadForVerify(log)| ==> Signed(signer.value, ReadForVerify(log)[i]))
          && signature != "" && signature == signer.value.head(Head(Records(log)), at))
  }

  /** The entries before `i` are linked and, where a key asks for it, signed. */
  ghost predicate SoundBefore(d: Digest, read: seq<Entry>, signer: Option<Signer>, i: nat) {
    && i < |read|
    && (forall k :: 0 <= k < i ==> Linked(d, Records(read), k))
    && (signer.Some? ==> forall k :: 0 <= k < i ==> Signed(signer.value, read[k]))
  }

  /** The fault reported is that of the first unsound entry, or else one of the head. */
  ghost predicate Explains(d: Digest, log: seq<Entry>, signer: Option<Signer>, signature: string, at: Timestamp,
                           r: VerifyResult)
  {
    var read := ReadForVerify(log);
    match r.fault
    case BrokenLink(id) =>
      exists i: nat :: SoundBefore(d, read, signer, i) && Names(read, i, id, r) && !Linked(d, Records(read), i)
    case Unsigned(id) =>
      exists i: nat :: SoundBefore(d, read, signer, i) && Names(read, i, id, r) && Linked(d, Records(read), i)
                  && signer.Some? && read[i].signature == ""
    case BadSignature(id) =>
      exists i: nat :: SoundBefore(d, read, signer, i) && Names(read, i, id, r) && Linked(d, Records(read), i)
                  && signer.Some? && read[i].signature != "" && !Signed(signer.value, read[i])
    case HeadMismatch => r.headHash == Head(Records(log)) != Head(Records(read))
    case HeadUnsigned => r.headHash == Head(Records(log)) && signer.Some? && signature == ""
    case BadHeadSignature =>
      && r.headHash == Head(Records(log))
      && signer.Some? && signature != "" && signature != signer.value.head(r.headHash, at)
    case NoFault => r.headHash == Head(Records(log))
  }

  ghost predicate Names(read: seq<Entry>, i: nat, id: int, r: VerifyResult)
    requires i < |read|
  {
    read[i].id == id && read[i].record.hash == r.headHash
  }

  method Verify(d: Digest, repo: AuditRepository, signer: Option<Signer>, signature: string, signedAt: Timestamp)
    returns (r: VerifyResult)
    ensures r.valid <==> Verifies(d, repo.entries, signer, signature, signedAt)
    ensures r.valid <==> r.fault.NoFault?
    ensures Explains(d, repo.entries, signer, signature, signedAt, r)
  {
    hide SortEntries, Listed, Payload, IsPage, EntryHash, Oldest;
    var entries := repo.List(ListOptions(None, VERIFY_LIMIT, 0, true));
    ListedOldest(repo.entries, VERIFY_LIMIT);
    ghost var records := Records(entries);
    assert entries == ReadForVerify(repo.entries);
    var prevHash := "";
    for i := 0 to |entries|
      invariant prevHash == HashBefore(records, i)
      invariant forall k :: 0 <= k < i ==> Linked(d, records, k)
      invariant signer.Some? ==> forall k :: 0 <= k < i ==> Signed(signer.value, entries[k])
    {
      var entry := entries[i];
      assert SoundBefore(d, entries, signer, i);
      var expected := EntryHash(d, prevHash, entry.record.event);
      if entry.record.hash != expected {
        assert !Linked(d, records, i);
        return VerifyResult(false, entry.record.hash, BrokenLink(entry.id));
      }
      if signer.Some? {
        if entry.signature == "" {
          assert !Signed(signer.value, entries[i]);
          return VerifyResult(false, entry.record.hash, Unsigned(entry.id));
        }
        if entry.signature != signer.value.entry(entry.record.hash) {
          assert !Signed(signer.value, entries[i]);
          return VerifyResult(false, entry.record.hash, BadSignature(entry.id));
        }
      }
      prevHash := entry.record.hash;
    }
    var headHash := repo.LatestHash();
    if headHash != prevHash {
      return VerifyResult(false, headHash, HeadMismatch);
    }
    if signer.Some? {
      if signature == "" {
        return VerifyResult(false, headHash, HeadUnsigned);
      }
      if signature != signer.value.head(headHash, signedAt) {
        return VerifyResult(false, headHash, BadHeadSignature);
      }
    }
    return VerifyResult(true, headHash, NoFault);
  }

  /** Restoring leaves no signatures behind, so a restored log never verifies under a signing key. */
  lemma RestoredIsUnsigned(d: Digest, snapshot: seq<Record>, signer: Signer, signature: string, at: Timestamp)
    requires Imported(snapshot) != []
    ensures !Verifies(d, Imported(snapshot), Some(signer), signature, at)
  {
    hide SortEntries, Chained;
    var log := Imported(snapshot);
    var i := Origins(log, 0);
    assert !Signed(signer, ReadForVerify(log)[0]);
  }

  // ----------------------------------------- append order against time order

  /** None of the first `k` entries appended was overtaken: every later one carries the same time or a later one. */
  ghost predicate InOrder(log: seq<Entry>, k: nat) {
    forall i, j :: 0 <= i < k && i < j < |log| ==>
      log[i].record.event.timestamp.instant <= log[j].record.event.timestamp.instant
  }

  /** Position of an entry of the log in its sorted form. */
  lemma Position(log: seq<Entry>, e: Entry) returns (p: nat)
    requires e in log
    ensures p < |SortEntries(true, log)| && SortEntries(true, log)[p] == e
  {
    var s := SortEntries(true, log);
    assert e in multiset(log);
    assert e in multiset(s);
    p :| 0 <= p < |s| && s[p] == e;
  }

  lemma Origins(log: seq<Entry>, p: nat) returns (i: nat)
    requires p < |log|
    ensures i < |log| && SortEntries(true, log)[p] == log[i]
  {
    var s := SortEntries(true, log);
    assert s[p] in multiset(s);
    assert s[p] in multiset(log);
    i :| 0 <= i < |log| && log[i] == s[p];
  }

  /** Past a common prefix of length `n`, the sorted form continues with the next entry of the log. */
  lemma NextOldest(log: seq<Entry>, s: seq<Entry>, n: nat, m: nat, p: nat)
    requires Numbered(log) && InOrder(log, n + 1) && n < |log| == |s|
    requires Sorted(true, s) && s[..n] == log[..n]
    requires m < |log| && s[n] == log[m]
    requires p < |s| && s[p] == log[n]
    requires forall q :: 0 <= q < |s| && s[q] == s[n] ==> q == n
    ensures m == n
  {
    forall q | 0 <= q < n ensures log[q] == s[q] {
      assert log[..n][q] == s[..n][q];
    }
    assert p >= n;
    assert p > n ==> !Precedes(true, s[p], s[n]);
    assert m > n ==> Earlier(log[n], log[m]);
  }

  /** In order, the oldest entries are the first ones. */
  lemma {:induction false} InOrderIsOldest(log: seq<Entry>, k: nat)
    requires Numbered(log) && k <= |log| && InOrder(log, k)
    ensures Oldest(log, k) == log[..k]
    decreases k
  {
    hide SortEntries;
    if k > 0 {
      InOrderIsOldest(log, k - 1);
      var s := SortEntries(true, log);
      var m := Origins(log, k - 1);
      var p := Position(log, log[k - 1]);
      forall q | 0 <= q < |s| && s[q] == s[k - 1] ensures q == k - 1 { SortedOnce(log, q, k - 1); }
      NextOldest(log, s, k - 1, m, p);
      assert s[..k] == s[..k - 1] + [s[k - 1]];
    }
  }

  /** Entries of a numbered log occur once in its sorted form. */
  lemma SortedOnce(log: seq<Entry>, p: nat, q: nat)
    requires Numbered(log) && p < |log| && q < |log|
    requires SortEntries(true, log)[p] == SortEntries(true, log)[q]
    ensures p == q
  {
    var s := SortEntries(true, log);
    if p != q {
      var e := s[p];
      OccursTwice(s, p, q);
      assert multiset(log)[e] >= 2;
      OccursOnce(log, e);
    }
  }

  lemma OccursTwice(s: seq<Entry>, p: nat, q: nat)
    requires p < |s| && q < |s| && p != q && s[p] == s[q]
    ensures multiset(s)[s[p]] >= 2
  {
    var lo, hi := Min(p, q), p + q - Min(p, q);
    assert s == s[..lo] + [s[lo]] + s[lo + 1..hi] + [s[hi]] + s[hi + 1..];
  }

  lemma {:induction false} OccursOnce(log: seq<Entry>, e: Entry)
    requires Numbered(log)
    ensures multiset(log)[e] <= 1
  {
    if log != [] {
      var n := |log| - 1;
      assert log == log[..n] + [log[n]];
      OccursOnce(log[..n], e);
      if e == log[n] {
        assert e !in log[..n];
      }
    }
  }

  /** If the oldest entries are the first ones, the log was in order. */
  lemma OldestIsInOrder(log: seq<Entry>, k: nat)
    requires Numbered(log) && k <= |log| && Oldest(log, k) == log[..k]
    ensures InOrder(log, k)
  {
    var s := SortEntries(true, log);
    forall i, j | 0 <= i < k && i < j < |log|
      ensures log[i].record.event.timestamp.instant <= log[j].record.event.timestamp.instant
    {
      assert log[i] == log[..k][i] == s[..k][i] == s[i];
      var p := Position(log, log[j]);
      assert i < p by {
        if p < k { assert s[p] == s[..k][p] == log[..k][p] == log[p]; }
      }
      assert !Precedes(true, s[p], s[i]);
    }
  }

  /** The oldest `k` entries of a chained log form a chain only if they are the first `k`. */
  lemma {:induction false} ChainedOldest(d: Digest, log: seq<Entry>, k: nat)
    requires d.Lawful() && Chained(d, Records(log)) && k <= |log|
    requires Chained(d, Records(Oldest(log, k)))
    requires CollisionFree(d, Records(log), Records(log))
    requires CollisionFree(d, Records(Oldest(log, k)), Records(log))
    ensures Oldest(log, k) == log[..k]
    decreases k
  {
    hide SortEntries, Payload, Body, CollisionFree, Linked, EntryHash;
    if k > 0 {
      var a, b := Records(Oldest(log, k)), Records(log);
      var s := SortEntries(true, log);
      assert s[..k][..k - 1] == s[..k - 1];
      assert Records(Oldest(log, k - 1)) == a[..k - 1];
      PrefixChained(d, a, k - 1);
      PrefixCollisionFree(d, a, b, k - 1, |b|);
      assert b[..|b|] == b;
      ChainedOldest(d, log, k - 1);
      var m := Origins(log, k - 1);
      SameHash(d, a, k - 1, b, m);
      LinkHash(d, a, k - 1);
      LinkHash(d, b, m);
      if k > 1 {
        assert a[k - 2] == s[..k - 1][k - 2].record == log[..k - 1][k - 2].record == b[k - 2];
        HashesDistinct(d, b, k - 2, m - 1);
      }
      assert m == k - 1;
      assert Oldest(log, k) == Oldest(log, k - 1) + [s[k - 1]];
    }
  }

  /** Exactly the logs in order have their oldest entries form a chain. */
  lemma OldestChainedIff(d: Digest, log: seq<Entry>, k: nat)
    requires d.Lawful() && Chained(d, Records(log)) && Numbered(log) && k <= |log|
    requires CollisionFree(d, Records(log), Records(log))
    requires CollisionFree(d, Records(Oldest(log, k)), Records(log))
    ensures Chained(d, Records(Oldest(log, k))) <==> InOrder(log, k)
    ensures InOrder(log, k) ==> Oldest(log, k) == log[..k]
  {
    hide SortEntries, Payload, Body;
    if InOrder(log, k) {
      InOrderIsOldest(log, k);
      PrefixChained(d, Records(log), k);
      assert Records(log[..k]) == Records(log)[..k];
    } else if Chained(d, Records(Oldest(log, k))) {
      ChainedOldest(d, log, k);
      OldestIsInOrder(log, k);
    }
  }
}
