/**
 The operational seal of the vault: whole-key and share-by-share unsealing, with
 a progressive delay after every wrong guess. The main results are the exact
 condition under which a run leaves the vault open, the least time a number of
 wrong guesses takes, and that the shares of a split open the vault.
 */
module Seal {
  import opened Outcomes
  import opened GaloisField
  import opened Numbers
  import opened Shamir

  /** Times and durations are in nanoseconds. */
  const SECOND: int := 1_000_000_000
  const CAP: int := 30 * SECOND
  const ZERO_TIME: int := 0

  /** Shares waiting for the threshold: each under its own coordinate, all of one length. */
  ghost predicate Gathered(m: map<Byte, Bytes>) {
    && (forall x :: x in m ==> x != ZERO && X(m[x]) == x && 2 <= |m[x]| <= 256)
    && (forall x, y :: x in m && y in m ==> |m[x]| == |m[y]|)
  }

  /** What survives the process: the marker files by path. */
  type Files = map<string, string>

  datatype Vault = Vault(
    sealed: bool, unsealKey: Bytes, stateFile: string, failCount: nat, lastFail: int,
    threshold: int, pending: map<Byte, Bytes>, files: Files)
  {
    ghost predicate Valid() {
      Gathered(pending) && threshold >= 1
    }
  }

  function Created(key: Bytes, files: Files): Vault {
    Vault(key != [], key, "", 0, ZERO_TIME, 1, map[], files)
  }

  // ----------------------------------------------------------------------- backoff

  /** The pause after the `n`-th wrong guess in a row. */
  function Delay(n: nat): (d: int)
    requires n > 0
    ensures d == (if n == 1 then 1 else if n == 2 then 2 else if n == 3 then 4 else if n == 4 then 8
                  else if n == 5 then 16 else 30) * SECOND
  {
    var shift := if n - 1 > 5 then 5 else n - 1;
    assert Pow2(1) == 2 && Pow2(2) == 4 && Pow2(3) == 8 && Pow2(4) == 16 && Pow2(5) == 32;
    var delay := Pow2(shift) * SECOND;
    if delay > CAP then CAP else delay
  }

  function Backoff(v: Vault, now: int): (wait: int)
    ensures wait > 0 <==> v.failCount > 0 && now < v.lastFail + Delay(v.failCount)
    ensures wait > 0 ==> now + wait == v.lastFail + Delay(v.failCount)
    ensures wait >= 0
  {
    if v.failCount == 0 then 0
    else
      var elapsed := now - v.lastFail;
      if elapsed >= Delay(v.failCount) then 0 else Delay(v.failCount) - elapsed
  }

  // ------------------------------------------------------------------- single calls

  function Persisted(v: Vault): Vault {
    if v.stateFile == "" then v
    else v.(files := v.files[v.stateFile := if v.sealed then "sealed" else "unsealed"])
  }

  function Opened(v: Vault): Vault {
    Persisted(v.(failCount := 0, lastFail := ZERO_TIME, sealed := false, pending := map[]))
  }

  /** One more wrong guess, noted at time `later`. */
  function Missed(v: Vault, later: int): Vault {
    v.(failCount := v.failCount + 1, lastFail := later)
  }

  lemma {:induction false} ListExists(m: map<Byte, Bytes>)
    requires Gathered(m)
    ensures exists list :: DistinctX(list) && Holds(m, list)
    decreases |m|
  {
    hide X;
    if m == map[] {
      assert DistinctX([]) && Holds(m, []);
    } else {
      var x :| x in m;
      var rest := m - {x};
      ListExists(rest);
      var list :| DistinctX(list) && Holds(rest, list);
      ListGrows(m, x, list);
    }
  }

  lemma ListGrows(m: map<Byte, Bytes>, x: Byte, list: seq<Bytes>)
    requires x in m && X(m[x]) == x && DistinctX(list) && Holds(m - {x}, list)
    ensures DistinctX(list + [m[x]]) && Holds(m, list + [m[x]])
  {
    hide X;
    forall s | s in list ensures X(s) != x {
      assert X(s) in m - {x};
    }
    forall y | y in m && y != x ensures m[y] in list && X(m[y]) == y {
      assert y in m - {x};
    }
  }

  /** The waiting shares in some order; `CombinedIgnoresOrder` says that the order is of no account. */
  ghost function Listed(m: map<Byte, Bytes>): (list: seq<Bytes>)
    requires Gathered(m)
    ensures DistinctX(list) && Holds(m, list)
  {
    ListExists(m);
    var list :| DistinctX(list) && Holds(m, list);
    list
  }

  datatype Reply = Reply(unsealed: bool, have: nat, need: int, message: string)

  /** SHA-256, compared in constant time. */
  type Digest = Bytes -> Bytes

  ghost function AfterUnseal(d: Digest, v: Vault, key: Bytes, now: int, later: int): (Vault, bool) {
    if v.unsealKey == [] then (v, false)
    else if Backoff(v, now) > 0 then (v, false)
    else if d(key) != d(v.unsealKey) then (Missed(v, later), false)
    else (Opened(v), true)
  }

  ghost predicate LengthsDiffer(m: map<Byte, Bytes>, share: Bytes) {
    exists x :: x in m && |m[x]| != |share|
  }

  ghost function AfterShare(d: Digest, v: Vault, share: Bytes, now: int, later: int): (Vault, Reply)
    requires v.Valid()
  {
    if v.unsealKey == [] then (v, Reply(false, 0, 1, "unseal not configured"))
    else if |share| < 2 || |share| > 256 then (v, Reply(false, 0, 1, "invalid share"))
    else
      var need := v.threshold;
      if Backoff(v, now) > 0 then (v, Reply(false, |v.pending|, need, "unseal rate limited"))
      else if X(share) == ZERO then (Missed(v, later), Reply(false, |v.pending|, need, "invalid share index"))
      else if LengthsDiffer(v.pending, share) then
        var m := Missed(v, later);
        var m' := if m.failCount >= 5 then m.(pending := map[]) else m;
        (m', Reply(false, |m'.pending|, need, "share length mismatch"))
      else Completed(d, v, share, later)
  }

  /** The waiting shares with one more. */
  ghost function Accepted(m: map<Byte, Bytes>, share: Bytes): (r: map<Byte, Bytes>)
    requires Gathered(m) && 2 <= |share| <= 256 && X(share) != ZERO && !LengthsDiffer(m, share)
    ensures Gathered(r)
  {
    m[X(share) := share]
  }

  /** The end of the call, once the share has been accepted. */
  ghost function Completed(d: Digest, v: Vault, share: Bytes, later: int): (Vault, Reply)
    requires v.Valid() && 2 <= |share| <= 256 && X(share) != ZERO && !LengthsDiffer(v.pending, share)
  {
    var need := v.threshold;
    var w := v.(pending := Accepted(v.pending, share));
    var have := |w.pending|;
    if have < need then (w, Reply(false, have, need, ""))
    else match Combined(Listed(w.pending))
      case Err(_) =>
        var m := Missed(w, later);
        if m.failCount >= 3 then (m.(pending := map[]), Reply(false, 0, need, "share combine failed"))
        else (m, Reply(false, have, need, "share combine failed"))
      case Ok(key) =>
        if d(key) != d(v.unsealKey) then (Missed(w, later).(pending := map[]), Reply(false, 0, need, "invalid shares"))
        else (Opened(w), Reply(true, need, need, ""))
  }

  /** Shares that wait together always combine: the error branch above is never taken. */
  lemma GatheredCombines(m: map<Byte, Bytes>)
    requires Gathered(m) && m != map[]
    ensures Combined(Listed(m)).Ok?
    ensures forall x :: x in m ==> |Combined(Listed(m)).value| == |m[x]| - 1
  {
    hide X, Secret, LastPerX;
    var list := Listed(m);
    var x :| x in m;
    assert m[x] in list;
    assert list[0] in list;
  }

  // -------------------------------------------------------------------------- runs

  datatype Call =
    | SetUnsealThreshold(t: int)
    | SetStateFile(path: string)
    | SealIt
    | Unseal(key: Bytes, now: int, later: int)
    | SubmitShare(share: Bytes, now: int, later: int)
      // Anyone who can write the disk may put any content into any file.
    | Rewritten(path: string, content: string)
    | Removed(path: string)

  function AfterThreshold(v: Vault, t: int): Vault {
    v.(threshold := if t < 1 then 1 else t, pending := map[])
  }

  function AfterStateFile(v: Vault, path: string): Vault {
    if path == "" then v
    else
      var w := v.(stateFile := path);
      if (path in v.files && v.files[path] == "sealed") || v.unsealKey != [] then w.(sealed := true) else w
  }

  function AfterSeal(v: Vault): Vault {
    Persisted(v.(sealed := true))
  }

  ghost function Step(d: Digest, v: Vault, call: Call): (v': Vault)
    requires v.Valid()
  {
    match call
    case SetUnsealThreshold(t) => AfterThreshold(v, t)
    case SetStateFile(path) => AfterStateFile(v, path)
    case SealIt => AfterSeal(v)
    case Unseal(key, now, later) => AfterUnseal(d, v, key, now, later).0
    case SubmitShare(share, now, later) => AfterShare(d, v, share, now, later).0
    case Rewritten(path, content) => v.(files := v.files[path := content])
    case Removed(path) => v.(files := v.files - {path})
  }

  lemma NoneGathered()
    ensures Gathered(map[])
  {
  }

  lemma CompletedKeepsValid(d: Digest, v: Vault, share: Bytes, later: int)
    requires v.Valid() && 2 <= |share| <= 256 && X(share) != ZERO && !LengthsDiffer(v.pending, share)
    ensures Completed(d, v, share, later).0.Valid() && Completed(d, v, share, later).0.unsealKey == v.unsealKey
  {
    hide Combined, X, Gathered, LengthsDiffer, Accepted;
    NoneGathered();
  }

  lemma ShareKeepsValid(d: Digest, v: Vault, share: Bytes, now: int, later: int)
    requires v.Valid()
    ensures AfterShare(d, v, share, now, later).0.Valid()
    ensures AfterShare(d, v, share, now, later).0.unsealKey == v.unsealKey
  {
    hide Completed, Backoff, X, Gathered, LengthsDiffer;
    NoneGathered();
    if 2 <= |share| <= 256 && X(share) != ZERO && !LengthsDiffer(v.pending, share) {
      CompletedKeepsValid(d, v, share, later);
    }
  }

  lemma StepKeepsValid(d: Digest, v: Vault, call: Call)
    requires v.Valid()
    ensures Step(d, v, call).Valid() && Step(d, v, call).unsealKey == v.unsealKey
  {
    hide AfterShare, Backoff, Gathered;
    NoneGathered();
    if call.SubmitShare? {
      ShareKeepsValid(d, v, call.share, call.now, call.later);
    }
  }

  ghost function After(d: Digest, v: Vault, calls: seq<Call>): (v': Vault)
    requires v.Valid()
    ensures v'.Valid() && v'.unsealKey == v.unsealKey
  {
    if calls == [] then v
    else
      var n := |calls| - 1;
      StepKeepsValid(d, After(d, v, calls[..n]), calls[n]);
      Step(d, After(d, v, calls[..n]), calls[n])
  }

  // ------------------------------------------------------------------------ guesses

  /** The share is taken in by the call. */
  ghost predicate Takes(v: Vault, share: Bytes, now: int)
    requires v.Valid()
  {
    && v.unsealKey != []
    && 2 <= |share| <= 256
    && Backoff(v, now) <= 0
    && X(share) != ZERO
    && !LengthsDiffer(v.pending, share)
  }

  /** The key that the call compares with the unseal key, if it gets that far. */
  ghost function Guess(v: Vault, call: Call): (k: Option<Bytes>)
    requires v.Valid()
  {
    match call
    case Unseal(key, now, _) => if v.unsealKey != [] && Backoff(v, now) <= 0 then Some(key) else None
    case SubmitShare(share, now, _) =>
      if Takes(v, share, now) && |Accepted(v.pending, share)| >= v.threshold then Combination(Accepted(v.pending,
               share))
      else None
    case _ => None
  }

  ghost function Combination(m: map<Byte, Bytes>): Option<Bytes>
    requires Gathered(m)
  {
    match Combined(Listed(m))
    case Ok(key) => Some(key)
    case Err(_) => None
  }

  ghost predicate Right(d: Digest, v: Vault, call: Call)
    requires v.Valid()
  {
    Guess(v, call).Some? && d(Guess(v, call).value) == d(v.unsealKey)
  }

  /** With a key configured, the calls that seal the vault. */
  predicate Seals(call: Call) {
    call.SealIt? || (call.SetStateFile? && call.path != "")
  }

  function Later(call: Call): int {
    match call
    case Unseal(_, _, later) => later
    case SubmitShare(_, _, later) => later
    case _ => ZERO_TIME
  }

  /** A wrong guess, or a share that cannot belong to the ceremony, noted in the vault. */
  ghost predicate Counted(v: Vault, call: Call, v': Vault) {
    && v'.failCount == v.failCount + 1
    && v'.lastFail == Later(call)
    && v'.sealed == v.sealed
    && match call
       case Unseal(_, now, _) => Backoff(v, now) <= 0
       case SubmitShare(_, now, _) => Backoff(v, now) <= 0
       case _ => false
  }

  ghost predicate Uncounted(v: Vault, v': Vault) {
    v'.failCount == v.failCount && v'.lastFail == v.lastFail
  }

  ghost predicate Open(v: Vault) {
    !v.sealed && v.failCount == 0 && v.pending == map[]
  }

  lemma CompletedDecides(d: Digest, v: Vault, share: Bytes, now: int, later: int)
    requires v.Valid() && Takes(v, share, now)
    ensures var v', call := Completed(d, v, share, later).0, SubmitShare(share, now, later);
            && (Right(d, v, call) ==> Open(v'))
            && (!Right(d, v, call) ==> v'.sealed == v.sealed && (Counted(v, call, v') || Uncounted(v, v')))
            && (Guess(v, call).Some? && !Right(d, v, call) ==> Counted(v, call, v'))
  {
    hide Combined, X, Gathered, LengthsDiffer, Accepted, Backoff;
  }

  /** What a call does to the lock and to the counter. */
  lemma GuessDecides(d: Digest, v: Vault, call: Call)
    requires v.Valid()
    ensures var v' := Step(d, v, call);
            && (Right(d, v, call) ==> Open(v'))
            && (Guess(v, call).Some? && !Right(d, v, call) ==> Counted(v, call, v'))
            && (!Right(d, v, call) ==> Counted(v, call, v') || Uncounted(v, v'))
            && (!Right(d, v, call) && !Seals(call) ==> v'.sealed == v.sealed)
            && (Seals(call) && v.unsealKey != [] ==> v'.sealed)
  {
    hide Combination, X, Gathered, LengthsDiffer, Accepted, Backoff, Completed;
    if call.SubmitShare? && Takes(v, call.share, call.now) {
      CompletedDecides(d, v, call.share, call.now, call.later);
    }
  }

  /** What the answer to a share says about the vault. */
  ghost predicate Tells(d: Digest, v: Vault, share: Bytes, now: int, later: int, v': Vault, r: Reply)
    requires v.Valid()
  {
    var call := SubmitShare(share, now, later);
    && (r.unsealed <==> Right(d, v, call))
    && (r.unsealed ==> Open(v') && r.have == r.need)
    && (!r.unsealed ==> v'.sealed == v.sealed)
    && if v.unsealKey != [] && 2 <= |share| <= 256
       then r.need == v.threshold && (!r.unsealed ==> r.have == |v'.pending|)
       else r.need == 1 && r.have == 0 && v' == v
  }

  lemma CompletedTells(d: Digest, v: Vault, share: Bytes, now: int, later: int)
    requires v.Valid() && Takes(v, share, now)
    ensures var (v', r) := Completed(d, v, share, later); Tells(d, v, share, now, later, v', r)
  {
    hide Combined, X, Gathered, LengthsDiffer, Accepted, Backoff;
  }

  lemma ShareTells(d: Digest, v: Vault, share: Bytes, now: int, later: int)
    requires v.Valid()
    ensures var (v', r) := AfterShare(d, v, share, now, later); Tells(d, v, share, now, later, v', r)
  {
    hide Combination, X, Gathered, LengthsDiffer, Accepted, Backoff, Completed;
    if Takes(v, share, now) {
      CompletedTells(d, v, share, now, later);
    }
  }

  /** Which message goes with which cause, and what becomes of the waiting shares. */
  ghost predicate Explains(d: Digest, v: Vault, share: Bytes, now: int, later: int, v': Vault, r: Reply)
    requires v.Valid()
  {
    var guess := Guess(v, SubmitShare(share, now, later));
    if v.unsealKey == [] then r.message == "unseal not configured"
    else if |share| < 2 || |share| > 256 then r.message == "invalid share"
    else if Backoff(v, now) > 0 then r.message == "unseal rate limited" && v' == v
    else if share[0] == ZERO then r.message == "invalid share index" && v'.pending == v.pending
    else if exists x :: x in v.pending && |v.pending[x]| != |share| then
      && r.message == "share length mismatch"
      && v'.pending == if v'.failCount >= 5 then map[] else v.pending
    else if guess.None? then r.message == "" && v' == v.(pending := v.pending[share[0] := share])
    else v'.pending == map[] && (r.message == "" <==> r.unsealed) && r.message in {"", "invalid shares"}
  }

  lemma CompletedExplains(d: Digest, v: Vault, share: Bytes, now: int, later: int)
    requires v.Valid() && Takes(v, share, now)
    ensures var (v', r) := Completed(d, v, share, later); Explains(d, v, share, now, later, v', r)
  {
    hide Combined, Gathered, Backoff;
    assert X(share) in Accepted(v.pending, share);
    GatheredCombines(Accepted(v.pending, share));
  }

  lemma ShareExplains(d: Digest, v: Vault, share: Bytes, now: int, later: int)
    requires v.Valid()
    ensures var (v', r) := AfterShare(d, v, share, now, later); Explains(d, v, share, now, later, v', r)
  {
    hide Combination, Gathered, Accepted, Backoff, Completed;
    if Takes(v, share, now) {
      CompletedExplains(d, v, share, now, later);
    }
  }

  /** A key put together from shares has at most 255 bytes: a longer unseal key has to be presented whole. */
  lemma SharesGiveShortKeys(v: Vault, call: Call)
    requires v.Valid() && call.SubmitShare? && Guess(v, call).Some?
    ensures 1 <= |Guess(v, call).value| <= 255
  {
    hide Combined;
    var m := Accepted(v.pending, call.share);
    GatheredCombines(m);
  }

  // ------------------------------------------------------------- when a vault is open

  /** Call `i` presented the right key and nothing sealed the vault afterwards. */
  ghost predicate OpenedBy(d: Digest, v: Vault, calls: seq<Call>, i: nat)
    requires v.Valid() && i < |calls|
  {
    Right(d, After(d, v, calls[..i]), calls[i]) && forall j :: i < j < |calls| ==> !Seals(calls[j])
  }

  /**
   A vault with an unseal key is open exactly when some call presented the right key, outside any
   backoff, and no call has sealed the vault since; what the marker file says is of no account.
   */
  lemma {:induction false} OpenIff(d: Digest, v: Vault, calls: seq<Call>)
    requires v.Valid() && v.unsealKey != [] && v.sealed
    ensures !After(d, v, calls).sealed <==> exists i :: 0 <= i < |calls| && OpenedBy(d, v, calls, i)
  {
    hide Step, Guess, Right, Vault.Valid;
    if calls != [] {
      var n := |calls| - 1;
      var front, call := calls[..n], calls[n];
      var w := After(d, v, front);
      OpenIff(d, v, front);
      GuessDecides(d, w, call);
      forall i | 0 <= i < n ensures OpenedBy(d, v, calls, i) <==> OpenedBy(d, v, front, i) && !Seals(call) {
        OpenedEarlier(d, v, calls, i);
      }
      assert OpenedBy(d, v, calls, n) <==> Right(d, w, call);
      RightIsNoSeal(d, w, call);
    }
  }

  lemma OpenedEarlier(d: Digest, v: Vault, calls: seq<Call>, i: nat)
    requires v.Valid() && i < |calls| - 1
    ensures OpenedBy(d, v, calls, i) <==> OpenedBy(d, v, calls[..|calls| - 1], i) && !Seals(calls[|calls| - 1])
  {
    hide After, Right, Seals, Vault.Valid;
    var front := calls[..|calls| - 1];
    assert front[..i] == calls[..i];
    assert forall j :: 0 <= j < |front| ==> front[j] == calls[j];
  }

  lemma RightIsNoSeal(d: Digest, v: Vault, call: Call)
    requires v.Valid()
    ensures Seals(call) ==> !Right(d, v, call)
  {
  }

  /** Sealing outlives the process: one that starts with the same marker file starts sealed, with or without a key. */
  lemma SealIsSticky(v: Vault, key: Bytes)
    requires v.stateFile != ""
    ensures AfterStateFile(Created(key, AfterSeal(v).files), v.stateFile).sealed
  {
  }

  /** Every process starts sealed when a key is configured, whatever is on the disk. */
  lemma StartsSealed(key: Bytes, files: Files, path: string, t: int)
    requires key != []
    ensures Created(key, files).Valid() && Created(key, files).sealed
    ensures AfterStateFile(AfterThreshold(Created(key, files), t), path).sealed
  {
  }

  /** Without a key there is no way back from the sealed state. */
  lemma {:induction false} NoKeyStaysSealed(d: Digest, v: Vault, calls: seq<Call>)
    requires v.Valid() && v.unsealKey == [] && v.sealed
    ensures After(d, v, calls).sealed
  {
    if calls != [] {
      NoKeyStaysSealed(d, v, calls[..|calls| - 1]);
    }
  }

  // ---------------------------------------------------------------- the pace of guesses

  predicate ClockRuns(calls: seq<Call>) {
    forall i :: 0 <= i < |calls| ==>
      match calls[i]
      case Unseal(_, now, later) => now <= later
      case SubmitShare(_, now, later) => now <= later
      case _ => true
  }

  /** The times of the counted failures since the last right key. */
  ghost function Failures(d: Digest, v: Vault, calls: seq<Call>): seq<int>
    requires v.Valid()
  {
    if calls == [] then []
    else
      var n := |calls| - 1;
      var w := After(d, v, calls[..n]);
      if Right(d, w, calls[n]) then []
      else if Step(d, w, calls[n]).failCount > w.failCount then Failures(d, v, calls[..n]) + [Later(calls[n])]
      else Failures(d, v, calls[..n])
  }

  ghost predicate Rested(times: seq<int>, k: nat)
    requires 0 < k < |times|
  {
    times[k] - times[k - 1] >= Delay(k)
  }

  ghost predicate Paced(times: seq<int>) {
    forall k :: 0 < k < |times| ==> Rested(times, k)
  }

  lemma {:induction false} FailuresArePaced(d: Digest, v: Vault, calls: seq<Call>)
    requires v.Valid() && v.failCount == 0 && ClockRuns(calls)
    ensures var times, w := Failures(d, v, calls), After(d, v, calls);
            && Paced(times)
            && |times| == w.failCount
            && (times != [] ==> times[|times| - 1] == w.lastFail)
  {
    hide Step, Guess, Right, Vault.Valid, Delay;
    if calls != [] {
      var n := |calls| - 1;
      var front, call := calls[..n], calls[n];
      var w := After(d, v, front);
      FailuresArePaced(d, v, front);
      GuessDecides(d, w, call);
      var times := Failures(d, v, front);
      if Counted(w, call, Step(d, w, call)) && !Right(d, w, call) {
        PacedGrows(times, w, call);
      }
    }
  }

  lemma PacedGrows(times: seq<int>, w: Vault, call: Call)
    requires Paced(times) && |times| == w.failCount && (times != [] ==> times[|times| - 1] == w.lastFail)
    requires ClockRuns([call]) && (call.Unseal? || call.SubmitShare?) && Backoff(w, call.now) <= 0
    ensures Paced(times + [Later(call)])
  {
    hide Delay;
    var longer := times + [Later(call)];
    assert [call][0] == call;
    forall k | 0 < k < |longer| ensures Rested(longer, k) {
      if k < |times| {
        assert Rested(times, k);
      }
    }
  }

  /** The least time that `n` wrong guesses in a row take. */
  function Wait(n: nat): (w: int)
    ensures n >= 6 ==> w == (31 + 30 * (n - 6)) * SECOND
  {
    if n <= 1 then 0 else Wait(n - 1) + Delay(n - 1)
  }

  lemma {:induction false} PacedTakesTime(times: seq<int>, i: nat, j: nat)
    requires Paced(times) && i <= j < |times|
    ensures times[j] - times[i] >= Wait(j - i + 1)
    decreases j - i
  {
    if i < j {
      PacedTakesTime(times, i, j - 1);
      assert Rested(times, j);
    }
  }

  /**
   In any run, any `n` counted failures that follow each other without a right key in between take at
   least `Wait(n)`: 31 seconds for the first six and 30 more for each further one. So the number of
   failures in a given time is bounded. The counter in the vault is the length of the current series.
   */
  lemma WrongGuessesTakeTime(d: Digest, v: Vault, calls: seq<Call>, i: nat, j: nat)
    requires v.Valid() && v.failCount == 0 && ClockRuns(calls) && i <= j < |Failures(d, v, calls)|
    ensures |Failures(d, v, calls)| == After(d, v, calls).failCount
    ensures var span, n := Failures(d, v, calls)[j] - Failures(d, v, calls)[i], j - i + 1;
            && span >= Wait(n)
            && (n >= 6 ==> span >= (31 + 30 * (n - 6)) * SECOND)
            && (n >= 6 ==> n <= 6 + (span - 31 * SECOND) / (30 * SECOND))
  {
    hide Failures, After, Delay;
    FailuresArePaced(d, v, calls);
    PacedTakesTime(Failures(d, v, calls), i, j);
  }

  /** However many failures there were, thirty seconds later the right key opens the vault. */
  lemma RightKeyOpens(d: Digest, v: Vault, calls: seq<Call>, now: int, later: int)
    requires v.Valid() && v.unsealKey != []
    requires now >= After(d, v, calls).lastFail + CAP
    ensures Open(After(d, v, calls + [Unseal(v.unsealKey, now, later)]))
  {
    hide Step, Guess, Right, Backoff, Delay, Vault.Valid;
    var w, call := After(d, v, calls), Unseal(v.unsealKey, now, later);
    assert (calls + [call])[..|calls|] == calls;
    GuessDecides(d, w, call);
    RestedKeyIsRight(d, w, now, later);
  }

  lemma RestedKeyIsRight(d: Digest, v: Vault, now: int, later: int)
    requires v.Valid() && v.unsealKey != [] && now >= v.lastFail + CAP
    ensures Right(d, v, Unseal(v.unsealKey, now, later))
  {
    hide Vault.Valid;
  }

  // --------------------------------------------------------------------- the ceremony

  /** Shares of one split of the unseal key, submitted one after the other outside any backoff. */
  ghost predicate Ceremony(v: Vault, polynomials: seq<Bytes>, calls: seq<Call>)
    requires v.Valid()
  {
    && v.unsealKey != []
    && |v.unsealKey| <= 255
    && v.pending == map[]
    && Hides(polynomials, v.unsealKey, v.threshold)
    && forall i :: 0 <= i < |calls| ==>
         calls[i].SubmitShare? && ShareOf(polynomials, calls[i].share) && Backoff(v, calls[i].now) <= 0
  }

  /** The shares submitted. */
  function Submitted(calls: seq<Call>): (shares: seq<Bytes>)
    requires forall i :: 0 <= i < |calls| ==> calls[i].SubmitShare?
    ensures |shares| == |calls| && forall i :: 0 <= i < |calls| ==> shares[i] == calls[i].share
  {
    seq(|calls|, i requires 0 <= i < |calls| => calls[i].share)
  }

  /** The vault holds the shares of the split with these coordinates and is otherwise as before. */
  ghost predicate HoldsShares(v: Vault, w: Vault, polynomials: seq<Bytes>, xs: set<Byte>) {
    && w == v.(pending := w.pending)
    && w.pending.Keys == xs
    && forall x :: x in xs ==> w.pending[x] == ShareAt(polynomials, x)
  }

  lemma ShareIsTaken(v: Vault, w: Vault, polynomials: seq<Bytes>, xs: set<Byte>, share: Bytes, now: int)
    requires w.Valid() && HoldsShares(v, w, polynomials, xs) && v.unsealKey != [] && |v.unsealKey| <= 255
    requires |polynomials| == |v.unsealKey| && ShareOf(polynomials, share) && Backoff(v, now) <= 0
    ensures Takes(w, share, now)
    ensures Accepted(w.pending, share).Keys == xs + {X(share)}
    ensures forall x :: x in xs + {X(share)} ==> Accepted(w.pending, share)[x] == ShareAt(polynomials, x)
  {
    hide ShareAt, X, Backoff, Gathered;
    assert Backoff(w, now) == Backoff(v, now) by {
      SameBackoff(v, w, now);
    }
  }

  lemma SameBackoff(v: Vault, w: Vault, now: int)
    requires w == v.(pending := w.pending)
    ensures Backoff(w, now) == Backoff(v, now)
  {
    hide Delay;
  }

  lemma XsSnoc(shares: seq<Bytes>)
    requires shares != []
    ensures Xs(shares) == Xs(shares[..|shares| - 1]) + {X(shares[|shares| - 1])}
  {
    hide X;
  }

  /** One share of the split more, below the threshold and at it. */
  lemma NextShare(d: Digest, v: Vault, w: Vault, polynomials: seq<Bytes>, xs: set<Byte>, call: Call)
    requires w.Valid() && HoldsShares(v, w, polynomials, xs) && v.unsealKey != [] && |v.unsealKey| <= 255
    requires v.threshold >= 1 && Hides(polynomials, v.unsealKey, v.threshold)
    requires call.SubmitShare? && ShareOf(polynomials, call.share) && Backoff(v, call.now) <= 0
    ensures var xs' := xs + {X(call.share)};
            && (|xs'| < v.threshold ==> HoldsShares(v, Step(d, w, call), polynomials, xs'))
            && (|xs'| >= v.threshold ==> Right(d, w, call))
  {
    hide ShareAt, X, Backoff, Gathered, ShareOf, Combined, Accepted, LengthsDiffer;
    ShareIsTaken(v, w, polynomials, xs, call.share, call.now);
    var m := Accepted(w.pending, call.share);
    assert |m| == |m.Keys|;
    if |m| >= v.threshold {
      GatheredShares(v.unsealKey, polynomials, v.threshold, m);
    }
  }

  /** Until the threshold is met, the shares are gathered and nothing else changes. */
  lemma {:induction false} SharesGather(d: Digest, v: Vault, polynomials: seq<Bytes>, calls: seq<Call>)
    requires v.Valid() && Ceremony(v, polynomials, calls) && |Xs(Submitted(calls))| < v.threshold
    ensures HoldsShares(v, After(d, v, calls), polynomials, Xs(Submitted(calls)))
  {
    hide ShareAt, X, Backoff, Gathered, Hides, ShareOf, Step, Xs, HoldsShares;
    if calls == [] {
      NothingGathered(v, polynomials);
    } else {
      var n := |calls| - 1;
      var front, call := calls[..n], calls[n];
      assert Submitted(calls)[..n] == Submitted(front);
      XsSnoc(Submitted(calls));
      SubsetSize(Xs(Submitted(front)), Xs(Submitted(calls)));
      SharesGather(d, v, polynomials, front);
      NextShare(d, v, After(d, v, front), polynomials, Xs(Submitted(front)), call);
    }
  }

  lemma NothingGathered(v: Vault, polynomials: seq<Bytes>)
    requires v.pending == map[]
    ensures HoldsShares(v, v, polynomials, Xs([]))
  {
  }

  /**
   The first submission that completes `threshold` different coordinates opens the vault: shares may
   come in any order, with any repetitions and at any pace, and before that the vault stays as it was.
   */
  lemma SharesOpen(d: Digest, v: Vault, polynomials: seq<Bytes>, calls: seq<Call>)
    requires v.Valid() && Ceremony(v, polynomials, calls) && calls != []
    requires |Xs(Submitted(calls[..|calls| - 1]))| < v.threshold <= |Xs(Submitted(calls))|
    ensures Open(After(d, v, calls))
    ensures After(d, v, calls[..|calls| - 1]).sealed == v.sealed
  {
    hide ShareAt, X, Backoff, Gathered, Hides, ShareOf, Step, Xs, Right, Guess;
    var n := |calls| - 1;
    var front, call := calls[..n], calls[n];
    assert Submitted(calls)[..n] == Submitted(front);
    XsSnoc(Submitted(calls));
    SharesGather(d, v, polynomials, front);
    NextShare(d, v, After(d, v, front), polynomials, Xs(Submitted(front)), call);
    GuessDecides(d, After(d, v, front), call);
  }

  lemma GatheredShares(key: Bytes, polynomials: seq<Bytes>, t: nat, m: map<Byte, Bytes>)
    requires Gathered(m) && key != [] && Hides(polynomials, key, t) && |m| >= t
    requires forall x :: x in m ==> m[x] == ShareAt(polynomials, x)
    ensures Combined(Listed(m)) == Ok(key)
  {
    hide ShareAt, X, Hides, Combined;
    var list := Listed(m);
    assert Xs(list) == m.Keys;
    CombineUndoesSplit(key, polynomials, t, list);
  }

  // ------------------------------------------------------------------ the seal itself

  class Disk {
    var files: Files
    constructor (files: Files)
      ensures this.files == files
    {
      this.files := files;
    }
  }

  class SealState {
    const disk: Disk
    const unsealKey: Bytes
    var sealed: bool
    var stateFile: string
    var failCount: nat
    var lastFail: int
    var threshold: int
    var pending: map<Byte, Bytes>

    ghost function View(): Vault
      reads this, disk
    {
      Vault(sealed, unsealKey, stateFile, failCount, lastFail, threshold, pending, disk.files)
    }

    constructor (unsealKey: Bytes, disk: Disk)
      ensures this.disk == disk && View() == Created(unsealKey, disk.files) && View().Valid()
    {
      this.disk := disk;
      this.unsealKey := unsealKey;
      sealed, stateFile, failCount, lastFail := |unsealKey| > 0, "", 0, ZERO_TIME;
      threshold, pending := 1, map[];
    }

    method SetUnsealThreshold(t: int)
      requires View().Valid()
      modifies this
      ensures View() == AfterThreshold(old(View()), t) && View().Valid()
      ensures threshold == (if t <= 1 then 1 else t) && pending == map[] && sealed == old(sealed)
    {
      threshold := t;
      if t < 1 {
        threshold := 1;
      }
      pending := map[];
    }

    method SetStateFile(path: string)
      requires View().Valid()
      modifies this
      ensures View() == AfterStateFile(old(View()), path) && View().Valid()
      ensures sealed <==> old(sealed)
                          || (path != "" && (unsealKey != [] || (path in disk.files && disk.files[path] == "sealed")))
      ensures stateFile == if path == "" then old(stateFile) else path
    {
      if path == "" {
        return;
      }
      stateFile := path;
      if path in disk.files {
        if disk.files[path] == "sealed" {
          sealed := true;
        }
      }
      if |unsealKey| > 0 {
        sealed := true;
      }
    }

    method Seal()
      requires View().Valid()
      modifies this, disk
      ensures View() == AfterSeal(old(View())) && View().Valid()
      ensures sealed && stateFile == old(stateFile) && pending == old(pending) && failCount == old(failCount)
      ensures stateFile != "" ==> disk.files == old(disk.files)[stateFile := "sealed"]
    {
      sealed := true;
      Persist();
    }

    method Persist()
      modifies disk
      ensures View() == Persisted(old(View()))
    {
      if stateFile == "" {
        return;
      }
      var val := "unsealed";
      if sealed {
        val := "sealed";
      }
      disk.files := disk.files[stateFile := val];
    }

    method MarkUnsealed() returns (ok: bool)
      modifies this, disk
      ensures ok && View() == Opened(old(View()))
      ensures !sealed && failCount == 0 && pending == map[]
      ensures stateFile != "" ==> disk.files == old(disk.files)[stateFile := "unsealed"]
    {
      failCount, lastFail, sealed, pending := 0, ZERO_TIME, false, map[];
      Persist();
      return true;
    }

    method UnsealBackoff(now: int) returns (wait: int)
      ensures wait == Backoff(View(), now)
      ensures 0 <= wait && (now >= lastFail ==> wait <= CAP)
    {
      hide Delay;
      if failCount == 0 {
        return 0;
      }
      var shift := failCount - 1;
      if shift > 5 {
        shift := 5;
      }
      DelayIs(failCount);
      var delay := Pow2(shift) * SECOND;
      if delay > CAP {
        delay := CAP;
      }
      var elapsed := now - lastFail;
      if elapsed >= delay {
        return 0;
      }
      return delay - elapsed;
    }

    method NoteFailure(later: int)
      modifies `failCount, `lastFail
      ensures View() == Missed(old(View()), later)
    {
      failCount := failCount + 1;
      lastFail := later;
    }

    method Unseal(d: Digest, key: Bytes, now: int, later: int) returns (ok: bool)
      requires View().Valid()
      modifies this, disk
      ensures (View(), ok) == AfterUnseal(d, old(View()), key, now, later) && View().Valid()
      ensures ok <==> Right(d, old(View()), Call.Unseal(key, now, later))
      ensures ok ==> !sealed && failCount == 0 && pending == map[]
                     && (stateFile != "" ==> disk.files == old(disk.files)[stateFile := "unsealed"])
      ensures !ok ==> sealed == old(sealed) && pending == old(pending) && disk.files == old(disk.files)
      ensures !ok && unsealKey != [] && Backoff(old(View()), now) <= 0 ==>
                failCount == old(failCount) + 1 && lastFail == later
      ensures unsealKey == [] || Backoff(old(View()), now) > 0 ==> !ok && View() == old(View())
    {
      hide Backoff;
      if |unsealKey| == 0 {
        return false;
      }
      var wait := UnsealBackoff(now);
      if wait > 0 {
        return false;
      }
      if d(key) != d(unsealKey) {
        NoteFailure(later);
        return false;
      }
      ok := MarkUnsealed();
    }

    method UnsealProgress() returns (have: nat, need: int)
      requires View().Valid()
      ensures have == |pending| && need == threshold >= 1
    {
      need := threshold;
      if need < 1 {
        need := 1;
      }
      return |pending|, need;
    }

    method SubmitShare(d: Digest, share: Bytes, now: int, later: int) returns (r: Reply)
      requires View().Valid()
      modifies this, disk
      ensures (View(), r) == AfterShare(d, old(View()), share, now, later) && View().Valid()
      ensures r.unsealed <==> Right(d, old(View()), Call.SubmitShare(share, now, later))
      ensures Tells(d, old(View()), share, now, later, View(), r)
      ensures Explains(d, old(View()), share, now, later, View(), r)
    {
      ShareTells(d, View(), share, now, later);
      ShareExplains(d, View(), share, now, later);
      hide Backoff, Completed, Gathered, Right, Explains;
      NoneGathered();
      if |unsealKey| == 0 {
        return Reply(false, 0, 1, "unseal not configured");
      }
      if |share| < 2 || |share| > 256 {
        return Reply(false, 0, 1, "invalid share");
      }
      var need := threshold;
      var wait := UnsealBackoff(now);
      if wait > 0 {
        return Reply(false, |pending|, need, "unseal rate limited");
      }
      if share[0] == ZERO {
        NoteFailure(later);
        return Reply(false, |pending|, need, "invalid share index");
      }
      if |pending| > 0 {
        var x :| x in pending;
        OneLengthStandsForAll(pending, x, share);
        if |pending[x]| != |share| {
          NoteFailure(later);
          if failCount >= 5 {
            pending := map[];
          }
          return Reply(false, |pending|, need, "share length mismatch");
        }
      }
      r := TakeShare(d, share, later);
    }

    method TakeShare(d: Digest, share: Bytes, later: int) returns (r: Reply)
      requires View().Valid() && unsealKey != []
      requires 2 <= |share| <= 256 && X(share) != ZERO && !LengthsDiffer(pending, share)
      modifies this, disk
      ensures (View(), r) == Completed(d, old(View()), share, later) && View().Valid()
    {
      hide Gathered, LengthsDiffer, Combined;
      NoneGathered();
      var need := threshold;
      ghost var all := Accepted(pending, share);
      pending := pending[share[0] := share];
      assert pending == all;
      var have := |pending|;
      if have < need {
        return Reply(false, have, need, "");
      }
      var combined := CombinePending();
      if combined.Err? {
        NoteFailure(later);
        if failCount >= 3 {
          pending := map[];
          have := 0;
        }
        return Reply(false, have, need, "share combine failed");
      }
      if d(combined.value) != d(unsealKey) {
        NoteFailure(later);
        pending := map[];
        return Reply(false, 0, need, "invalid shares");
      }
      pending := map[];
      var ok := MarkUnsealed();
      return Reply(ok, need, need, "");
    }

    method CombinePending() returns (combined: Result<Bytes, Error>)
      requires Gathered(pending)
      ensures combined == Combined(Listed(pending))
    {
      hide Combined, X;
      var list := ListValues(pending);
      combined := Combine(list);
      CombinedIgnoresOrder(list, Listed(pending));
    }
  }

  lemma DelayIs(n: nat)
    requires n > 0
    ensures var shift := if n - 1 > 5 then 5 else n - 1;
            Delay(n) == if Pow2(shift) * SECOND > CAP then CAP else Pow2(shift) * SECOND
  {
  }

  lemma OneLengthStandsForAll(m: map<Byte, Bytes>, x: Byte, share: Bytes)
    requires Gathered(m) && x in m
    ensures LengthsDiffer(m, share) <==> |m[x]| != |share|
  {
    hide X;
  }
}
