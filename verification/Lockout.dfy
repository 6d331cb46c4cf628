/**
 The login lockout: failure counters per identity, locks that expire, and a
 bound on how many unlocked counters are kept. Times are integers; the clock
 never goes back.
 */
module Lockout {
  import opened Numbers
  import opened Outcomes

  const DEFAULT_THRESHOLD := 5
  const DEFAULT_TTL := 15 * 60
  const MAX_ENTRIES := 50_000

  datatype Config = Config(threshold: nat, ttl: int, maxEntries: nat) {
    predicate Valid() {
      threshold > 0 && ttl > 0 && maxEntries > 0
    }
  }

  /** Failure counts, and for locked identities the time the lock lasts until. */
  datatype Table = Table(attempts: map<string, nat>, locked: map<string, int>)

  datatype Event =
    | Failure(key: string, now: int, stamp: int)   // `stamp` is the later clock reading that dates the lock
    | Query(key: string, now: int)
    | Success(key: string)
    | Clear(key: string)

  function Drop(t: Table, key: string): Table {
    Table(t.attempts - {key}, t.locked - {key})
  }

  predicate Expired(t: Table, key: string, now: int) {
    key in t.locked && now > t.locked[key]
  }

  /** What a query at time `now` answers. */
  predicate Reports(t: Table, key: string, now: int) {
    key in t.locked && now <= t.locked[key]
  }

  /** Every expired lock goes, with its counter. */
  function Purged(t: Table, now: int): Table {
    Table(map k | k in t.attempts && !Expired(t, k, now) :: t.attempts[k],
          map k | k in t.locked && !Expired(t, k, now) :: t.locked[k])
  }

  /** Some unlocked counters go, until fewer than half the maximum are left or none of them is. */
  ghost predicate Evicted(maxEntries: nat, locked: map<string, int>, before: map<string, nat>,
                          after: map<string, nat>)
  {
    && (forall k :: k in after ==> k in before && after[k] == before[k])
    && (forall k :: k in before && k in locked ==> k in after)
    && (|after| == maxEntries / 2 - 1 || ((forall k :: k in after ==> k in locked) && |after| >= maxEntries / 2))
  }

  function Counted(c: Config, t: Table, key: string, stamp: int): Table {
    var count := (if key in t.attempts then t.attempts[key] else 0) + 1;
    Table(t.attempts[key := count], if count >= c.threshold then t.locked[key := stamp + c.ttl] else t.locked)
  }

  predicate Crowded(c: Config, t: Table, key: string) {
    key !in t.attempts && |t.attempts| >= c.maxEntries
  }

  /** One call. Which counters an eviction drops is left open, as map order is. */
  ghost predicate Step(c: Config, t: Table, e: Event, t': Table) {
    match e
    case Failure(key, now, stamp) =>
      var p := Purged(t, now);
      if Crowded(c, p, key)
      then exists kept :: Evicted(c.maxEntries, p.locked, p.attempts, kept)
                          && t' == Counted(c, p.(attempts := kept), key, stamp)
      else t' == Counted(c, p, key, stamp)
    case Query(key, now) => t' == if Expired(t, key, now) then Drop(t, key) else t
    case Success(key) => t' == Drop(t, key)
    case Clear(key) => t' == Drop(t, key)
  }

  class LockoutTracker {
    var attempts: map<string, nat>
    var locked: map<string, int>
    const config: Config

    ghost function Value(): Table
      reads this
    {
      Table(attempts, locked)
    }

    constructor (threshold: int, ttl: int)
      ensures Value() == Table(map[], map[])
      ensures config == Config(if threshold <= 0 then 5 else threshold, if ttl <= 0 then 900 else ttl, 50_000)
      ensures config.Valid()
    {
      config := Config(if threshold <= 0 then DEFAULT_THRESHOLD else threshold,
                       if ttl <= 0 then DEFAULT_TTL else ttl, MAX_ENTRIES);
      attempts, locked := map[], map[];
    }

    method IsLocked(key: string, now: int) returns (r: bool)
      modifies this
      ensures Step(config, old(Value()), Query(key, now), Value())
      ensures r <==> key in old(locked) && now <= old(locked)[key]
      ensures r ==> Value() == old(Value())
      ensures !r ==> key !in locked
    {
      if key !in locked {
        return false;
      }
      if now > locked[key] {
        locked := locked - {key};
        attempts := attempts - {key};
        return false;
      }
      return true;
    }

    method PurgeExpired(now: int)
      modifies this
      ensures Value() == Purged(old(Value()), now)
    {
      ghost var before := Value();
      var left := locked.Keys;
      while left != {}
        invariant left <= before.locked.Keys && left <= locked.Keys
        invariant forall k :: k in locked <==> k in before.locked && (k in left || !Expired(before, k, now))
        invariant forall k :: k in locked ==> locked[k] == before.locked[k]
        invariant forall k :: k in attempts <==> k in before.attempts && (k in left || !Expired(before, k, now))
        invariant forall k :: k in attempts ==> attempts[k] == before.attempts[k]
        decreases |left|
      {
        var key :| key in left;
        left := left - {key};
        if now > locked[key] {
          locked := locked - {key};
          attempts := attempts - {key};
        }
      }
      assert locked == Purged(before, now).locked;
      assert attempts == Purged(before, now).attempts;
    }

    method EvictAttempts()
      requires |attempts| >= config.maxEntries
      modifies this`attempts
      ensures Evicted(config.maxEntries, locked, old(attempts), attempts)
    {
      var left := attempts.Keys;
      ghost var before := attempts;
      while left != {}
        invariant left <= attempts.Keys
        invariant forall k :: k in attempts ==> k in before && attempts[k] == before[k]
        invariant forall k :: k in before && k in locked ==> k in attempts
        invariant forall k :: k in attempts && k !in left ==> k in locked
        invariant |attempts| >= config.maxEntries / 2
        decreases |left|
      {
        var k :| k in left;
        left := left - {k};
        if k in locked {
          continue;
        }
        ghost var size := |attempts|;
        assert (attempts - {k}).Keys == attempts.Keys - {k};
        attempts := attempts - {k};
        assert |attempts| == size - 1;
        if |attempts| < config.maxEntries / 2 {
          return;
        }
      }
    }

    method RecordFailure(key: string, now: int, stamp: int) returns (lockedNow: bool)
      requires config.Valid()
      modifies this
      ensures Step(config, old(Value()), Failure(key, now, stamp), Value())
      ensures lockedNow <==> attempts[key] >= config.threshold
      ensures lockedNow ==> key in locked && locked[key] == stamp + config.ttl
    {
      PurgeExpired(now);
      ghost var purged := Value();
      if key !in attempts && config.maxEntries > 0 && |attempts| >= config.maxEntries {
        EvictAttempts();
      }
      ghost var kept := attempts;
      attempts := attempts[key := (if key in attempts then attempts[key] else 0) + 1];
      lockedNow := attempts[key] >= config.threshold;
      if lockedNow {
        locked := locked[key := stamp + config.ttl];
      }
      assert Value() == Counted(config, purged.(attempts := kept), key, stamp);
    }

    method RecordSuccess(key: string)
      modifies this
      ensures Step(config, old(Value()), Success(key), Value())
      ensures attempts == old(attempts) - {key} && locked == old(locked) - {key}
    {
      attempts := attempts - {key};
      locked := locked - {key};
    }
  }

  // -------------------------------------------------------- what every call keeps

  function Unlocked(t: Table): set<string> {
    set k | k in t.attempts && k !in t.locked
  }

  /** A key is locked exactly when its counter has reached the threshold; unlocked counters are bounded. */
  ghost predicate Inv(c: Config, t: Table) {
    && (forall k :: k in t.locked <==> k in t.attempts && t.attempts[k] >= c.threshold)
    && (forall k :: k in t.attempts ==> t.attempts[k] > 0)
    && |Unlocked(t)| <= c.maxEntries
  }

  lemma DropKeeps(c: Config, t: Table, key: string)
    requires Inv(c, t)
    ensures Inv(c, Drop(t, key))
  {
    SubsetSize(Unlocked(Drop(t, key)), Unlocked(t));
  }

  lemma PurgeKeeps(c: Config, t: Table, now: int)
    requires Inv(c, t)
    ensures Inv(c, Purged(t, now))
  {
    SubsetSize(Unlocked(Purged(t, now)), Unlocked(t));
  }

  lemma EvictKeeps(c: Config, t: Table, kept: map<string, nat>)
    requires c.Valid() && Inv(c, t) && Evicted(c.maxEntries, t.locked, t.attempts, kept)
    ensures Inv(c, t.(attempts := kept))
    ensures |Unlocked(t.(attempts := kept))| < c.maxEntries
  {
    var t' := t.(attempts := kept);
    if |kept| == c.maxEntries / 2 - 1 {
      SubsetSize(Unlocked(t'), kept.Keys);
    } else {
      assert Unlocked(t') == {};
    }
  }

  /** Counting a failure adds at most one unlocked counter, and only for a new key. */
  lemma CountKeeps(c: Config, t: Table, key: string, stamp: int)
    requires c.Valid() && Inv(c, t) && (key in t.attempts || |Unlocked(t)| < c.maxEntries)
    ensures Inv(c, Counted(c, t, key, stamp))
  {
    var t' := Counted(c, t, key, stamp);
    if key in t.attempts {
      SubsetSize(Unlocked(t'), Unlocked(t));
    } else {
      SubsetSize(Unlocked(t'), Unlocked(t) + {key});
    }
  }

  lemma StepKeeps(c: Config, t: Table, e: Event, t': Table)
    requires c.Valid() && Inv(c, t) && Step(c, t, e, t')
    ensures Inv(c, t')
  {
    hide Inv, Purged, Evicted, Counted, Unlocked;
    match e
    case Failure(key, now, stamp) =>
      var p := Purged(t, now);
      PurgeKeeps(c, t, now);
      if Crowded(c, p, key) {
        var kept :| Evicted(c.maxEntries, p.locked, p.attempts, kept)
            && t' == Counted(c, p.(attempts := kept), key, stamp);
        EvictKeeps(c, p, kept);
        CountKeeps(c, p.(attempts := kept), key, stamp);
      } else {
        if key !in p.attempts { RoomForOne(c, p, key); }
        CountKeeps(c, p, key, stamp);
      }
    case Query(key, now) => DropKeeps(c, t, key);
    case Success(key) => DropKeeps(c, t, key);
    case Clear(key) => DropKeeps(c, t, key);
  }

  lemma RoomForOne(c: Config, t: Table, key: string)
    requires !Crowded(c, t, key) && key !in t.attempts
    ensures |Unlocked(t)| < c.maxEntries
  {
    SubsetSize(Unlocked(t), t.attempts.Keys);
  }

  // ------------------------------------------------------------------- whole runs

  ghost predicate Run(c: Config, events: seq<Event>, tables: seq<Table>) {
    && |tables| == |events| + 1 && tables[0] == Table(map[], map[])
    && forall i :: 0 <= i < |events| ==> Step(c, tables[i], events[i], tables[i + 1])
  }

  /** In every run: locked means at or above the threshold, and unlocked counters stay bounded. */
  lemma {:induction false} RunKeeps(c: Config, events: seq<Event>, tables: seq<Table>, n: nat)
    requires c.Valid() && Run(c, events, tables) && n <= |events|
    ensures Inv(c, tables[n])
  {
    hide Step;
    if n > 0 {
      RunKeeps(c, events, tables, n - 1);
      StepKeeps(c, tables[n - 1], events[n - 1], tables[n]);
    }
  }

  /** The call finds that the lock of this identity has ended, and forgets it. */
  predicate EndsLock(t: Table, e: Event, key: string) {
    match e
    case Failure(_, now, _) => Expired(t, key, now)
    case Query(k, now) => k == key && Expired(t, key, now)
    case _ => false
  }

  /** The call drops the counter of this identity to make room for that of another. */
  predicate Evicts(t: Table, e: Event, t': Table, key: string) {
    e.Failure? && e.key != key && key in t.attempts && key !in t'.attempts
  }

  /** Failures of a key since its last success, clearing, end of a lock or eviction, among the first `n` events. */
  function FailuresSinceReset(events: seq<Event>, tables: seq<Table>, key: string, n: nat): nat
    requires n <= |events| < |tables|
  {
    if n == 0 then 0
    else
      var t, e, t' := tables[n - 1], events[n - 1], tables[n];
      var before := if EndsLock(t, e, key) || Evicts(t, e, t', key) then 0
                    else FailuresSinceReset(events, tables, key, n - 1);
      if e.key != key || e.Query? then before else if e.Failure? then before + 1 else 0
  }

  /** The date of the last failure of a key, if it had one. */
  function LastFailure(events: seq<Event>, key: string, n: nat): int
    requires n <= |events|
  {
    if n == 0 then 0
    else if events[n - 1].Failure? && events[n - 1].key == key then events[n - 1].stamp
    else LastFailure(events, key, n - 1)
  }

  function Count(t: Table, key: string): nat {
    if key in t.attempts then t.attempts[key] else 0
  }

  /** What a call does to one identity's count, and to the end of its lock. */
  ghost predicate Moves(c: Config, t: Table, e: Event, t': Table, key: string) {
    var before := if EndsLock(t, e, key) || Evicts(t, e, t', key) then 0 else Count(t, key);
    && Count(t', key) == (if e.key != key || e.Query? then before else if e.Failure? then before + 1 else 0)
    && (key in t'.locked ==>
          if e.Failure? && e.key == key then t'.locked[key] == e.stamp + c.ttl
          else key in t.locked && t'.locked[key] == t.locked[key])
  }

  lemma CountedMoves(c: Config, t: Table, p: Table, e: Event, kept: map<string, nat>, key: string)
    requires e.Failure? && p == Purged(t, e.now) && Inv(c, p)
    requires forall k :: k in kept ==> k in p.attempts && kept[k] == p.attempts[k]
    requires e.key in p.attempts ==> e.key in kept
    ensures Moves(c, t, e, Counted(c, p.(attempts := kept), e.key, e.stamp), key)
  {
  }

  lemma StepMoves(c: Config, t: Table, e: Event, t': Table, key: string)
    requires c.Valid() && Inv(c, t) && Step(c, t, e, t')
    ensures Moves(c, t, e, t', key)
  {
    if e.Failure? {
      hide Moves, Inv, Purged, Counted;
      var p := Purged(t, e.now);
      PurgeKeeps(c, t, e.now);
      var kept := p.attempts;
      if Crowded(c, p, e.key) {
        kept :| Evicted(c.maxEntries, p.locked, p.attempts, kept)
                && t' == Counted(c, p.(attempts := kept), e.key, e.stamp);
      }
      CountedMoves(c, t, p, e, kept, key);
    }
  }

  /** The counter is the number of failures since the last reset, and a lock runs from the last of these. */
  lemma {:induction false} CountIsFailures(c: Config, events: seq<Event>, tables: seq<Table>, key: string, n: nat)
    requires c.Valid() && Run(c, events, tables) && n <= |events|
    ensures Count(tables[n], key) == FailuresSinceReset(events, tables, key, n)
    ensures key in tables[n].locked ==> tables[n].locked[key] == LastFailure(events, key, n) + c.ttl
  {
    hide Step, EndsLock, Evicts;
    if n > 0 {
      CountIsFailures(c, events, tables, key, n - 1);
      RunKeeps(c, events, tables, n - 1);
      StepMoves(c, tables[n - 1], events[n - 1], tables[n], key);
    }
  }

  /**
   In every run, an identity is reported locked exactly when it has had `threshold` failures or more since its last
   reset, the last of them at most `ttl` ago.
   */
  lemma LockedIff(c: Config, events: seq<Event>, tables: seq<Table>, n: nat, key: string, now: int)
    requires c.Valid() && Run(c, events, tables) && n <= |events|
    ensures Reports(tables[n], key, now) <==>
            FailuresSinceReset(events, tables, key, n) >= c.threshold && now <= LastFailure(events, key, n) + c.ttl
  {
    hide Step;
    RunKeeps(c, events, tables, n);
    CountIsFailures(c, events, tables, key, n);
  }

  predicate Timed(e: Event) {
    e.Failure? || e.Query?
  }

  /** The last clock reading of a timed event. */
  function End(e: Event): int
    requires Timed(e)
  {
    if e.Failure? then e.stamp else e.now
  }

  /** Clock readings along the run never go back. */
  ghost predicate ClockNeverGoesBack(events: seq<Event>) {
    && (forall i :: 0 <= i < |events| && Timed(events[i]) ==> events[i].now <= End(events[i]))
    && (forall i, j :: 0 <= i < j < |events| && Timed(events[i]) && Timed(events[j]) ==>
        End(events[i]) <= events[j].now)
  }

  lemma {:induction false} LastFailureIsPast(events: seq<Event>, tables: seq<Table>, key: string, m: nat, i: nat)
    requires ClockNeverGoesBack(events) && m <= i < |events| < |tables| && events[i].Failure?
    requires FailuresSinceReset(events, tables, key, m) > 0
    ensures LastFailure(events, key, m) <= events[i].stamp
  {
    if !(events[m - 1].Failure? && events[m - 1].key == key) {
      LastFailureIsPast(events, tables, key, m - 1, i);
    }
  }

  /** A lock outlives evictions: up to its end only a success or clearing of that key lifts it. */
  lemma {:induction false} LockSurvives(c: Config, events: seq<Event>, tables: seq<Table>, m: nat, n: nat, key: string)
    requires c.Valid() && Run(c, events, tables) && ClockNeverGoesBack(events) && m <= n <= |events|
    requires key in tables[m].locked
    requires forall i :: m <= i < n && (events[i].Failure? || events[i].Query?) ==>
            events[i].now <= tables[m].locked[key]
    requires forall i :: m <= i < n && (events[i].Success? || events[i].Clear?) ==> events[i].key != key
    ensures key in tables[n].locked && tables[m].locked[key] <= tables[n].locked[key]
    decreases n
  {
    hide Step;
    if m < n {
      LockSurvives(c, events, tables, m, n - 1, key);
      RunKeeps(c, events, tables, n - 1);
      RunKeeps(c, events, tables, m);
      CountIsFailures(c, events, tables, key, m);
      StillLocked(c, tables[n - 1], events[n - 1], tables[n], key);
      if events[n - 1].Failure? {
        LastFailureIsPast(events, tables, key, m, n - 1);
      }
    }
  }

  lemma StillLocked(c: Config, t: Table, e: Event, t': Table, key: string)
    requires c.Valid() && Inv(c, t) && Step(c, t, e, t') && key in t.locked
    requires e.Failure? || e.Query? ==> e.now <= t.locked[key]
    requires e.Success? || e.Clear? ==> e.key != key
    ensures key in t'.locked
    ensures t'.locked[key] == if e.Failure? && e.key == key then e.stamp + c.ttl else t.locked[key]
  {
    if e.Failure? && Crowded(c, Purged(t, e.now), e.key) {
      var p := Purged(t, e.now);
      var kept :| Evicted(c.maxEntries, p.locked, p.attempts, kept)
                  && t' == Counted(c, p.(attempts := kept), e.key, e.stamp);
    }
  }

  // ----------------------------------------------- one identity, seen on its own

  /** What a tracker for a single identity would hold: its count and the end of its lock. */
  datatype Slot = Slot(count: nat, until: Option<int>) {
    predicate Locked(now: int) {
      until.Some? && now <= until.value
    }
  }

  const EMPTY := Slot(0, None)

  function Settled(slot: Slot, now: int): Slot {
    if slot.until.Some? && now > slot.until.value then EMPTY else slot
  }

  /** The slot after the first `n` events, looking at one identity's events only. */
  function SlotOf(c: Config, events: seq<Event>, key: string, n: nat): Slot
    requires n <= |events|
  {
    if n == 0 then EMPTY
    else
      var slot, e := SlotOf(c, events, key, n - 1), events[n - 1];
      if e.key != key then slot
      else match e
        case Failure(_, now, stamp) =>
          var count := Settled(slot, now).count + 1;
          Slot(count, if count >= c.threshold then Some(stamp + c.ttl) else Settled(slot, now).until)
        case Query(_, now) => Settled(slot, now)
        case _ => EMPTY
  }

  /** The table holds the slot, or the slot's lock had ended by time `t0` and the table has dropped it. */
  ghost predicate Agrees(t: Table, key: string, slot: Slot, t0: int) {
    || (&& (if key in t.attempts then slot.count == t.attempts[key] else slot.count == 0)
        && (if key in t.locked then slot.until == Some(t.locked[key]) else slot.until == None))
    || (slot.until.Some? && slot.until.value < t0 && key !in t.attempts && key !in t.locked)
  }

  lemma StepAgrees(c: Config, events: seq<Event>, n: nat, t: Table, t': Table, key: string, t0: int, t1: int)
    requires n < |events| && Step(c, t, events[n], t') && Inv(c, t)
    requires events[n].Failure? ==> !Crowded(c, Purged(t, events[n].now), events[n].key)
    requires Agrees(t, key, SlotOf(c, events, key, n), t0) && t0 <= t1
    requires Timed(events[n]) ==> t0 <= events[n].now <= t1
    ensures Agrees(t', key, SlotOf(c, events, key, n + 1), t1)
  {
  }

  /** Without crowding, dropping expired entries early is invisible: each identity is treated as if it were alone. */
  lemma {:induction false} EachIdentityOnItsOwn(c: Config, events: seq<Event>, tables: seq<Table>, key: string,
                                                n: nat, t0: int)
    requires c.Valid() && Run(c, events, tables) && ClockNeverGoesBack(events) && n <= |events|
    requires forall i :: 0 <= i < n && events[i].Failure? ==>
            !Crowded(c, Purged(tables[i], events[i].now), events[i].key)
    requires forall i :: 0 <= i < n && Timed(events[i]) ==> End(events[i]) <= t0
    ensures Agrees(tables[n], key, SlotOf(c, events, key, n), t0)
    ensures forall now :: t0 <= now ==> (Reports(tables[n], key, now) <==> SlotOf(c, events, key, n).Locked(now))
  {
    hide Step;
    if n > 0 {
      var e := events[n - 1];
      var earlier := if Timed(e) then e.now else t0;
      EachIdentityOnItsOwn(c, events, tables, key, n - 1, earlier);
      RunKeeps(c, events, tables, n - 1);
      StepAgrees(c, events, n - 1, tables[n - 1], tables[n], key, earlier, t0);
    }
  }
}
