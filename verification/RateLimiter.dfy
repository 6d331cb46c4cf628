/**
 The per-client token-bucket limiter. Token amounts and seconds are reals; the
 clock never goes back.

 Buckets not seen for ten minutes are dropped, and when the map is full the
 bucket seen longest ago makes room. The results compare the limiter with a
 reference that never drops a bucket, and bound what a client can get through.
 */
module RateLimiter {
  import opened Numbers

  const INTERVAL := 60.0
  const IDLE_TTL := 600.0
  const DEFAULT_LIMIT := 300
  const DEFAULT_MAX_BUCKETS := 10_000

  datatype Bucket = Bucket(tokens: real, lastRefill: real, lastSeen: real)

  type Buckets = map<string, Bucket>

  datatype Request = Request(key: string, now: real)

  /** Tokens gained in `elapsed` seconds. */
  function Gain(limit: real, elapsed: real): real {
    (elapsed / INTERVAL) * limit
  }

  function MinReal(a: real, b: real): real {
    if a < b then a else b
  }

  function Refilled(limit: real, b: Bucket, now: real): real {
    var elapsed := now - b.lastRefill;
    if elapsed >= INTERVAL then limit else MinReal(limit, b.tokens + Gain(limit, elapsed))
  }

  /** A request on a bucket: whether it is let through, and the bucket afterwards. */
  function Spend(limit: real, b: Bucket, now: real): (Bucket, bool) {
    var tokens := Refilled(limit, b, now);
    if tokens < 1.0 then (Bucket(tokens, now, now), false) else (Bucket(tokens - 1.0, now, now), true)
  }

  function NewBucket(limit: real, now: real): Bucket {
    Bucket(limit - 1.0, now, now)
  }

  predicate Idle(b: Bucket, now: real) {
    now - b.lastSeen > IDLE_TTL
  }

  /** The buckets that survive the idle sweep. */
  function Active(buckets: Buckets, now: real): Buckets {
    map k | k in buckets && !Idle(buckets[k], now) :: buckets[k]
  }

  /** A request against a map nothing else is dropped from: the reference limiter. */
  function Serve(limit: real, buckets: Buckets, r: Request): (Buckets, bool) {
    if r.key in buckets then
      var (b, ok) := Spend(limit, buckets[r.key], r.now);
      (buckets[r.key := b], ok)
    else
      (buckets[r.key := NewBucket(limit, r.now)], true)
  }

  /** The limiter while it has room: idle sweep first. */
  function SweepAndServe(limit: real, buckets: Buckets, r: Request): (Buckets, bool) {
    Serve(limit, Active(buckets, r.now), r)
  }

  predicate Full(maxBuckets: nat, buckets: Buckets, r: Request) {
    var active := Active(buckets, r.now);
    r.key !in active && |active| >= maxBuckets
  }

  /** No bucket was seen longer ago. */
  ghost predicate Oldest(buckets: Buckets, k: string) {
    k in buckets && forall k' :: k' in buckets ==> buckets[k].lastSeen <= buckets[k'].lastSeen
  }

  /** The map after one bucket seen longest ago made room; the empty key, if it is the one found, stays. */
  ghost predicate MadeRoom(before: Buckets, after: Buckets) {
    exists k :: Oldest(before, k) && after == if k == "" then before else before - {k}
  }

  /** One request, full map or not. */
  ghost predicate LimiterStep(limit: real, maxBuckets: nat, before: Buckets, r: Request, after: Buckets, ok: bool) {
    if Full(maxBuckets, before, r)
    then ok && exists room :: MadeRoom(Active(before, r.now), room) && after == room[r.key := NewBucket(limit, r.now)]
    else (after, ok) == SweepAndServe(limit, before, r)
  }

  class Limiter {
    var buckets: Buckets
    const limit: real
    var maxBuckets: nat

    ghost predicate Valid()
      reads this
    {
      maxBuckets > 0 && limit >= 1.0
    }

    constructor (requestsPerMinute: int)
      ensures Valid() && buckets == map[] && maxBuckets == 10_000
      ensures limit == if requestsPerMinute <= 0 then 300.0 else requestsPerMinute as real
    {
      var rate := requestsPerMinute;
      if rate <= 0 {
        rate := DEFAULT_LIMIT;
      }
      buckets := map[];
      limit := rate as real;
      maxBuckets := DEFAULT_MAX_BUCKETS;
    }

    method SetMaxBuckets(n: int)
      requires Valid()
      modifies this`maxBuckets
      ensures Valid()
      ensures maxBuckets == if n <= 0 then old(maxBuckets) else n
    {
      if n > 0 {
        maxBuckets := n;
      }
    }

    method Evict(now: real)
      modifies this`buckets
      ensures buckets == Active(old(buckets), now)
      ensures forall k :: k in buckets <==> k in old(buckets) && now - old(buckets)[k].lastSeen <= 600.0
      ensures forall k :: k in buckets ==> buckets[k] == old(buckets)[k]
    {
      ghost var before := buckets;
      var left := buckets.Keys;
      while left != {}
        invariant left <= before.Keys
        invariant forall k :: k in buckets <==> k in before && (k in left || !Idle(before[k], now))
        invariant forall k :: k in buckets ==> buckets[k] == before[k]
        decreases |left|
      {
        var k :| k in left;
        left := left - {k};
        if Idle(buckets[k], now) {
          buckets := buckets - {k};
        }
      }
    }

    method EvictOldest()
      modifies this`buckets
      ensures old(buckets) == map[] ==> buckets == map[]
      ensures old(buckets) != map[] ==> MadeRoom(old(buckets), buckets)
    {
      var oldestKey, oldestTime, first := "", 0.0, true;
      var left := buckets.Keys;
      while left != {}
        invariant left <= buckets.Keys
        invariant first <==> left == buckets.Keys
        invariant first ==> oldestKey == ""
        invariant !first ==> oldestKey in buckets && oldestTime == buckets[oldestKey].lastSeen
        invariant !first ==> forall k :: k in buckets && k !in left ==> oldestTime <= buckets[k].lastSeen
        decreases |left|
      {
        var k :| k in left;
        left := left - {k};
        if first || buckets[k].lastSeen < oldestTime {
          oldestKey, oldestTime, first := k, buckets[k].lastSeen, false;
        }
      }
      assert buckets != map[] ==> Oldest(buckets, oldestKey);
      if oldestKey != "" {
        buckets := buckets - {oldestKey};
      }
    }

    method Allow(key: string, now: real) returns (ok: bool)
      requires Valid()
      modifies this`buckets
      ensures LimiterStep(limit, maxBuckets, old(buckets), Request(key, now), buckets, ok)
      ensures key in buckets && buckets[key].lastRefill == buckets[key].lastSeen == now
      ensures key !in old(buckets) ==> ok && buckets[key].tokens == limit - 1.0
      ensures forall k :: k in buckets && k != key ==> k in old(buckets) && buckets[k] == old(buckets)[k]
    {
      Evict(now);
      if key !in buckets {
        if |buckets| >= maxBuckets {
          EvictOldest();
        }
        buckets := buckets[key := NewBucket(limit, now)];
        return true;
      }
      var b := buckets[key];
      var elapsed := now - b.lastRefill;
      var tokens;
      if elapsed >= INTERVAL {
        tokens := limit;
      } else {
        var refill := (elapsed / INTERVAL) * limit;
        tokens := MinReal(limit, b.tokens + refill);
      }
      assert tokens == Refilled(limit, b, now);
      hide Refilled;
      if tokens < 1.0 {
        buckets := buckets[key := Bucket(tokens, now, now)];
        return false;
      }
      buckets := buckets[key := Bucket(tokens - 1.0, now, now)];
      return true;
    }
  }

  // ------------------------------------------------------------------------ runs

  ghost predicate ClockNeverGoesBack(requests: seq<Request>) {
    forall i, j :: 0 <= i < j < |requests| ==> requests[i].now <= requests[j].now
  }

  /** The reference limiter's buckets after the first `n` requests. */
  function Reference(limit: real, requests: seq<Request>, n: nat): Buckets
    requires n <= |requests|
  {
    if n == 0 then map[] else Serve(limit, Reference(limit, requests, n - 1), requests[n - 1]).0
  }

  /** The limiter's buckets after the first `n` requests, while it has room. */
  function Swept(limit: real, requests: seq<Request>, n: nat): Buckets
    requires n <= |requests|
  {
    if n == 0 then map[] else SweepAndServe(limit, Swept(limit, requests, n - 1), requests[n - 1]).0
  }

  /**
   A run of the limiter: its buckets before and after every request, and its answers. `maxima[n]` is the
   maximum in force at request `n`; between requests it may be set to any positive number.
   */
  ghost predicate Run(limit: real, maxima: seq<nat>, requests: seq<Request>, states: seq<Buckets>, answers: seq<bool>) {
    && |states| == |requests| + 1 && |answers| == |maxima| == |requests| && states[0] == map[]
    && (forall n :: 0 <= n < |requests| ==> maxima[n] > 0)
    && forall n :: 0 <= n < |requests| ==>
         LimiterStep(limit, maxima[n], states[n], requests[n], states[n + 1], answers[n])
  }

  ghost predicate NeverFull(maxima: seq<nat>, requests: seq<Request>, states: seq<Buckets>)
    requires |states| == |requests| + 1 && |maxima| == |requests|
  {
    forall n :: 0 <= n < |requests| ==> !Full(maxima[n], states[n], requests[n])
  }

  lemma {:induction false} RunIsSwept(limit: real, maxima: seq<nat>, requests: seq<Request>, states: seq<Buckets>,
                                      answers: seq<bool>, n: nat)
    requires Run(limit, maxima, requests, states, answers) && NeverFull(maxima, requests, states)
    requires n <= |requests|
    ensures states[n] == Swept(limit, requests, n)
    ensures n < |requests| ==> answers[n] == Allows(limit, requests, n)
  {
    hide Full, SweepAndServe;
    if n > 0 {
      RunIsSwept(limit, maxima, requests, states, answers, n - 1);
      assert LimiterStep(limit, maxima[n - 1], states[n - 1], requests[n - 1], states[n], answers[n - 1]);
    }
    if n < |requests| {
      assert LimiterStep(limit, maxima[n], states[n], requests[n], states[n + 1], answers[n]);
    }
  }

  predicate ReferenceAllows(limit: real, requests: seq<Request>, n: nat)
    requires n < |requests|
  {
    Serve(limit, Reference(limit, requests, n), requests[n]).1
  }

  predicate Allows(limit: real, requests: seq<Request>, n: nat)
    requires n < |requests|
  {
    SweepAndServe(limit, Swept(limit, requests, n), requests[n]).1
  }

  // ------------------------------------------------------------------- arithmetic

  lemma GainIsPositive(limit: real, elapsed: real)
    requires limit >= 0.0 && elapsed >= 0.0
    ensures Gain(limit, elapsed) >= 0.0
    ensures elapsed >= INTERVAL ==> Gain(limit, elapsed) >= limit
  {
    var x := elapsed / INTERVAL;
    assert x >= 0.0;
    assert x * limit >= 0.0;
    if elapsed >= INTERVAL {
      assert x >= 1.0;
      assert (x - 1.0) * limit >= 0.0;
    }
  }

  lemma GainAdds(limit: real, a: real, b: real)
    ensures Gain(limit, a) + Gain(limit, b) == Gain(limit, a + b)
  {
    assert (a + b) / INTERVAL == a / INTERVAL + b / INTERVAL;
  }

  // -------------------------------------------------------- tokens stay in bounds

  ghost predicate InBounds(limit: real, b: Bucket, now: real) {
    0.0 <= b.tokens <= limit && b.lastRefill == b.lastSeen && b.lastSeen <= now
  }

  ghost predicate AllInBounds(limit: real, buckets: Buckets, now: real) {
    forall k :: k in buckets ==> InBounds(limit, buckets[k], now)
  }

  lemma ServeInBounds(limit: real, buckets: Buckets, before: real, r: Request)
    requires limit >= 1.0 && AllInBounds(limit, buckets, before) && before <= r.now
    ensures AllInBounds(limit, Serve(limit, buckets, r).0, r.now)
  {
    hide Gain;
    if r.key in buckets {
      GainIsPositive(limit, r.now - buckets[r.key].lastRefill);
    }
  }

  lemma StepInBounds(limit: real, maxBuckets: nat, before: Buckets, r: Request, after: Buckets, ok: bool, earlier: real)
    requires limit >= 1.0 && AllInBounds(limit, before, earlier) && earlier <= r.now
    requires LimiterStep(limit, maxBuckets, before, r, after, ok)
    ensures AllInBounds(limit, after, r.now)
  {
    hide Gain;
    if !Full(maxBuckets, before, r) {
      ServeInBounds(limit, Active(before, r.now), earlier, r);
    }
  }

  /** In every run, full map or not, every bucket holds between zero and `limit` tokens. */
  lemma {:induction false} TokensStayInBounds(limit: real, maxima: seq<nat>, requests: seq<Request>,
                                              states: seq<Buckets>,
                                              answers: seq<bool>, n: nat)
    requires limit >= 1.0 && ClockNeverGoesBack(requests) && 0 < n <= |requests|
    requires Run(limit, maxima, requests, states, answers)
    ensures AllInBounds(limit, states[n], requests[n - 1].now)
  {
    hide Full, LimiterStep;
    assert LimiterStep(limit, maxima[n - 1], states[n - 1], requests[n - 1], states[n], answers[n - 1]);
    if n > 1 {
      TokensStayInBounds(limit, maxima, requests, states, answers, n - 1);
      StepInBounds(limit, maxima[n - 1], states[n - 1], requests[n - 1], states[n], answers[n - 1],
                   requests[n - 2].now);
    } else {
      StepInBounds(limit, maxima[0], states[0], requests[0], states[1], answers[0], requests[0].now);
    }
  }

  // ------------------------------------------------------------- the size of the map

  /** The one case in which making room makes none. */
  ghost predicate Stuck(maxBuckets: nat, before: Buckets, r: Request) {
    Full(maxBuckets, before, r) && Oldest(Active(before, r.now), "")
  }

  /**
   How many buckets a request leaves, with respect to those that survive the idle sweep. Never fewer: a map
   past its maximum, as after lowering the maximum, comes back under it only by idleness.
   */
  lemma StepSize(limit: real, maxBuckets: nat, before: Buckets, r: Request, after: Buckets, ok: bool)
    requires LimiterStep(limit, maxBuckets, before, r, after, ok)
    ensures var active := Active(before, r.now);
            && (r.key in active ==> |after| == |active|)
            && (r.key !in active && !Full(maxBuckets, before, r) ==> |after| == |active| + 1 <= maxBuckets)
            && (Full(maxBuckets, before, r) && !Stuck(maxBuckets, before, r) ==> |after| == |active|)
            && |active| <= |after| <= |active| + 1
  {
    hide Spend, Active;
    var active := Active(before, r.now);
    if Full(maxBuckets, before, r) {
      var room :| MadeRoom(active, room) && after == room[r.key := NewBucket(limit, r.now)];
      RoomForOne(active, room, r.key, NewBucket(limit, r.now));
    } else {
      assert after.Keys == active.Keys + {r.key};
    }
  }

  lemma RoomForOne(active: Buckets, room: Buckets, key: string, b: Bucket)
    requires MadeRoom(active, room) && key !in active
    ensures |active| <= |room[key := b]| <= |active| + 1
    ensures !Oldest(active, "") ==> |room[key := b]| == |active|
  {
    var k :| Oldest(active, k) && room == if k == "" then active else active - {k};
    assert room.Keys == if k == "" then active.Keys else active.Keys - {k};
    assert room[key := b].Keys == room.Keys + {key};
  }

  /** When the empty key is the one found, the request adds a bucket to a map that is full or more than full. */
  lemma StuckGrows(limit: real, maxBuckets: nat, before: Buckets, r: Request) returns (after: Buckets)
    requires Stuck(maxBuckets, before, r)
    ensures LimiterStep(limit, maxBuckets, before, r, after, true) && |after| == |Active(before, r.now)| + 1
  {
    hide Active;
    var active := Active(before, r.now);
    assert MadeRoom(active, active);
    after := active[r.key := NewBucket(limit, r.now)];
    assert after.Keys == active.Keys + {r.key};
  }

  /**
   Whatever the map holds, a request cannot take it past its maximum, or past its size if that is larger,
   exactly when the empty key is not the one to make room.
   */
  lemma SizeKeptIff(limit: real, maxBuckets: nat, before: Buckets, r: Request)
    requires maxBuckets > 0
    ensures (forall after, ok :: LimiterStep(limit, maxBuckets, before, r, after, ok) ==>
                                   |after| <= Max(|Active(before, r.now)|, maxBuckets))
            <==> !Stuck(maxBuckets, before, r)
  {
    hide Active, LimiterStep;
    if Stuck(maxBuckets, before, r) {
      var after := StuckGrows(limit, maxBuckets, before, r);
      assert LimiterStep(limit, maxBuckets, before, r, after, true);
    } else {
      forall after, ok | LimiterStep(limit, maxBuckets, before, r, after, ok)
        ensures |after| <= Max(|Active(before, r.now)|, maxBuckets)
      {
        StepSize(limit, maxBuckets, before, r, after, ok);
      }
    }
  }

  lemma {:induction false} SomeOldest(buckets: Buckets) returns (k: string)
    requires buckets != map[]
    ensures Oldest(buckets, k)
    decreases |buckets|
  {
    var x :| x in buckets;
    var rest := buckets - {x};
    k := x;
    if rest != map[] {
      var y := SomeOldest(rest);
      if rest[y].lastSeen < buckets[x].lastSeen {
        k := y;
      }
      OldestOfAll(buckets, x, y, k);
    } else {
      assert forall z :: z in buckets && z != x ==> z in rest;
    }
  }

  lemma OldestOfAll(buckets: Buckets, x: string, y: string, k: string)
    requires x in buckets && Oldest(buckets - {x}, y)
    requires k == if buckets[y].lastSeen < buckets[x].lastSeen then y else x
    ensures Oldest(buckets, k)
  {
    forall z | z in buckets ensures buckets[k].lastSeen <= buckets[z].lastSeen {
      assert z != x ==> z in buckets - {x};
    }
  }

  /** Every request can be served. */
  lemma StepExists(limit: real, maxBuckets: nat, before: Buckets, r: Request) returns (after: Buckets, ok: bool)
    requires maxBuckets > 0
    ensures LimiterStep(limit, maxBuckets, before, r, after, ok)
  {
    hide Active, Serve;
    if Full(maxBuckets, before, r) {
      var active := Active(before, r.now);
      var k := SomeOldest(active);
      var room := if k == "" then active else active - {k};
      assert MadeRoom(active, room);
      after, ok := room[r.key := NewBucket(limit, r.now)], true;
    } else {
      after, ok := SweepAndServe(limit, before, r).0, SweepAndServe(limit, before, r).1;
    }
  }

  /** Every beginning of a run can be continued to the end. */
  lemma {:induction false} RunContinues(limit: real, maxima: seq<nat>, requests: seq<Request>, k: nat,
                                        states: seq<Buckets>, answers: seq<bool>)
    returns (states': seq<Buckets>, answers': seq<bool>)
    requires k <= |requests| == |maxima| && (forall n :: 0 <= n < |maxima| ==> maxima[n] > 0)
    requires Run(limit, maxima[..k], requests[..k], states, answers)
    ensures Run(limit, maxima, requests, states', answers') && states <= states'
    decreases |requests| - k
  {
    hide LimiterStep;
    if k == |requests| {
      assert maxima[..k] == maxima && requests[..k] == requests;
      states', answers' := states, answers;
    } else {
      var after, ok := StepExists(limit, maxima[k], states[k], requests[k]);
      RunGrows(limit, maxima, requests, k, states, answers, after, ok);
      states', answers' := RunContinues(limit, maxima, requests, k + 1, states + [after], answers + [ok]);
    }
  }

  lemma RunGrows(limit: real, maxima: seq<nat>, requests: seq<Request>, k: nat, states: seq<Buckets>,
                 answers: seq<bool>, after: Buckets, ok: bool)
    requires k < |requests| == |maxima| && maxima[k] > 0
    requires Run(limit, maxima[..k], requests[..k], states, answers)
    requires LimiterStep(limit, maxima[k], states[k], requests[k], after, ok)
    ensures Run(limit, maxima[..k + 1], requests[..k + 1], states + [after], answers + [ok])
  {
    hide LimiterStep;
    var ms, rs, ss, oks := maxima[..k + 1], requests[..k + 1], states + [after], answers + [ok];
    forall n | 0 <= n < k + 1 ensures LimiterStep(limit, ms[n], ss[n], rs[n], ss[n + 1], oks[n]) {
      if n < k {
        assert LimiterStep(limit, maxima[..k][n], states[n], requests[..k][n], states[n + 1], answers[n]);
      }
    }
  }

  lemma RunPrefix(limit: real, maxima: seq<nat>, requests: seq<Request>, states: seq<Buckets>, answers: seq<bool>,
                  k: nat)
    requires Run(limit, maxima, requests, states, answers) && k <= |requests|
    ensures Run(limit, maxima[..k], requests[..k], states[..k + 1], answers[..k])
  {
    hide LimiterStep;
    forall n | 0 <= n < k
      ensures LimiterStep(limit, maxima[..k][n], states[..k + 1][n], requests[..k][n], states[..k + 1][n + 1],
                          answers[..k][n])
    {
      assert LimiterStep(limit, maxima[n], states[n], requests[n], states[n + 1], answers[n]);
    }
  }

  ghost predicate Within(states: seq<Buckets>, bound: nat) {
    forall n :: 0 <= n < |states| ==> |states[n]| <= bound
  }

  ghost predicate NeverStuck(bound: nat, requests: seq<Request>, states: seq<Buckets>)
    requires |states| == |requests| + 1
  {
    forall n :: 0 <= n < |requests| ==> !Stuck(bound, states[n], requests[n])
  }

  lemma {:induction false} UnstuckStaysWithin(limit: real, maxima: seq<nat>, bound: nat, requests: seq<Request>,
                                              states: seq<Buckets>, answers: seq<bool>, n: nat)
    requires Run(limit, maxima, requests, states, answers) && n <= |requests|
    requires (forall i :: 0 <= i < |maxima| ==> maxima[i] <= bound) && NeverStuck(bound, requests, states)
    ensures |states[n]| <= bound
  {
    hide LimiterStep, Oldest;
    if n > 0 {
      var before, r := states[n - 1], requests[n - 1];
      UnstuckStaysWithin(limit, maxima, bound, requests, states, answers, n - 1);
      assert LimiterStep(limit, maxima[n - 1], before, r, states[n], answers[n - 1]);
      StepSize(limit, maxima[n - 1], before, r, states[n], answers[n - 1]);
      ActiveIsFewer(before, r.now);
      assert !Stuck(bound, before, r);
    }
  }

  lemma ActiveIsFewer(buckets: Buckets, now: real)
    ensures |Active(buckets, now)| <= |buckets|
  {
    assert Active(buckets, now).Keys <= buckets.Keys;
    SubsetSize(Active(buckets, now).Keys, buckets.Keys);
  }

  /**
   For every sequence of requests, and every bound on the maxima set meanwhile, all runs stay within the
   bound exactly when in no run the empty key is to make room in a map that has reached the bound. With one
   maximum throughout, the bound is that maximum.
   */
  lemma BoundedIff(limit: real, maxima: seq<nat>, bound: nat, requests: seq<Request>)
    requires |maxima| == |requests| && forall n :: 0 <= n < |maxima| ==> 0 < maxima[n] <= bound
    ensures (forall states, answers :: Run(limit, maxima, requests, states, answers) ==> Within(states, bound))
            <==>
            (forall states, answers :: Run(limit, maxima, requests, states, answers) ==>
                NeverStuck(bound, requests, states))
  {
    hide LimiterStep, Stuck;
    forall states, answers | Run(limit, maxima, requests, states, answers) && NeverStuck(bound, requests, states)
      ensures Within(states, bound)
    {
      forall n | 0 <= n < |states| ensures |states[n]| <= bound {
        UnstuckStaysWithin(limit, maxima, bound, requests, states, answers, n);
      }
    }
    forall states, answers, n |
      Run(limit, maxima, requests, states, answers) && 0 <= n < |requests| && Stuck(bound, states[n], requests[n])
      ensures exists states', answers' :: Run(limit, maxima, requests, states', answers') && !Within(states', bound)
    {
      var _, _ := StuckOverflows(limit, maxima, bound, requests, states, answers, n);
    }
  }

  lemma StuckOverflows(limit: real, maxima: seq<nat>, bound: nat, requests: seq<Request>, states: seq<Buckets>,
                       answers: seq<bool>, n: nat)
    returns (states': seq<Buckets>, answers': seq<bool>)
    requires Run(limit, maxima, requests, states, answers) && n < |requests| && maxima[n] <= bound
    requires Stuck(bound, states[n], requests[n])
    ensures Run(limit, maxima, requests, states', answers') && !Within(states', bound)
  {
    hide LimiterStep, Oldest, Active;
    assert Stuck(maxima[n], states[n], requests[n]);
    var after := StuckGrows(limit, maxima[n], states[n], requests[n]);
    RunPrefix(limit, maxima, requests, states, answers, n);
    RunGrows(limit, maxima, requests, n, states[..n + 1], answers[..n], after, true);
    states', answers' := RunContinues(limit, maxima, requests, n + 1, states[..n + 1] + [after], answers[..n] + [true]);
    assert states'[n + 1] == after;
  }

  /** A run whose clients all have a non-empty key never outgrows the largest maximum. */
  lemma {:induction false} MapStaysBounded(limit: real, maxima: seq<nat>, bound: nat, requests: seq<Request>,
                                           states: seq<Buckets>, answers: seq<bool>, n: nat)
    requires Run(limit, maxima, requests, states, answers) && n <= |requests|
    requires forall i :: 0 <= i < |requests| ==> requests[i].key != "" && maxima[i] <= bound
    ensures |states[n]| <= bound && "" !in states[n]
  {
    hide LimiterStep;
    if n > 0 {
      var before, r := states[n - 1], requests[n - 1];
      MapStaysBounded(limit, maxima, bound, requests, states, answers, n - 1);
      assert LimiterStep(limit, maxima[n - 1], before, r, states[n], answers[n - 1]);
      StepSize(limit, maxima[n - 1], before, r, states[n], answers[n - 1]);
      ActiveIsFewer(before, r.now);
      NoNewKeys(limit, maxima[n - 1], before, r, states[n], answers[n - 1]);
    }
  }

  lemma NoNewKeys(limit: real, maxBuckets: nat, before: Buckets, r: Request, after: Buckets, ok: bool)
    requires LimiterStep(limit, maxBuckets, before, r, after, ok)
    ensures forall k :: k in after ==> k == r.key || k in before
  {
    hide Spend;
  }

  /** The empty key first, then ever new clients, all within the idle time of the first. */
  ghost predicate Newcomers(requests: seq<Request>) {
    && requests != [] && requests[0].key == ""
    && (forall i, j :: 0 <= i < j < |requests| ==> requests[i].key != requests[j].key)
    && (forall i :: 0 < i < |requests| ==> requests[0].now < requests[i].now <= requests[0].now + IDLE_TTL)
    && ClockNeverGoesBack(requests)
  }

  ghost predicate Came(requests: seq<Request>, n: nat, key: string)
    requires n <= |requests|
  {
    exists i :: 0 <= i < n && requests[i].key == key
  }

  /** Buckets other than that of the empty key were seen later than it, and within the idle time. */
  ghost predicate YoungerThan(buckets: Buckets, first: real) {
    forall k :: k in buckets ==>
      if k == "" then buckets[k].lastSeen == first else first < buckets[k].lastSeen <= first + IDLE_TTL
  }

  /** One bucket per request so far, that of the empty key seen before all others. */
  ghost predicate PiledUp(requests: seq<Request>, n: nat, buckets: Buckets)
    requires n <= |requests| && requests != []
  {
    && |buckets| == n
    && (n > 0 ==> "" in buckets)
    && (forall k :: k in buckets ==> Came(requests, n, k))
    && YoungerThan(buckets, requests[0].now)
  }

  /** While the empty key is the only oldest one, a new client is added and nobody leaves. */
  lemma NobodyLeaves(limit: real, maxBuckets: nat, before: Buckets, r: Request, after: Buckets, ok: bool)
    requires LimiterStep(limit, maxBuckets, before, r, after, ok) && r.key !in before
    requires forall k :: k in before ==> !Idle(before[k], r.now)
    requires before != map[] ==> "" in before
    requires forall k :: k in before && k != "" ==> before[""].lastSeen < before[k].lastSeen
    requires maxBuckets > 0
    ensures after == before[r.key := NewBucket(limit, r.now)]
  {
    hide Idle, NewBucket;
    assert Active(before, r.now) == before;
    hide Active;
    if Full(maxBuckets, before, r) {
      var room :| MadeRoom(before, room) && after == room[r.key := NewBucket(limit, r.now)];
      assert before != map[];
      var k :| Oldest(before, k) && room == if k == "" then before else before - {k};
      assert k == "";
    }
  }

  lemma IsNew(requests: seq<Request>, n: nat)
    requires Newcomers(requests) && n < |requests|
    ensures !Came(requests, n, requests[n].key)
    ensures if n == 0 then requests[n].key == ""
            else requests[n].key != "" && requests[0].now < requests[n].now <= requests[0].now + IDLE_TTL
    ensures forall i :: 0 <= i < n ==> requests[i].now <= requests[n].now
  {
  }

  lemma PileGrows(requests: seq<Request>, n: nat, before: Buckets, b: Bucket)
    requires Newcomers(requests) && n < |requests| && PiledUp(requests, n, before) && b.lastSeen == requests[n].now
    ensures requests[n].key !in before
    ensures PiledUp(requests, n + 1, before[requests[n].key := b])
  {
    hide Newcomers, Came;
    IsNew(requests, n);
    var key := requests[n].key;
    var after := before[key := b];
    assert key !in before;
    assert after.Keys == before.Keys + {key};
    forall k | k in after ensures Came(requests, n + 1, k) {
      StillCame(requests, n, k);
    }
  }

  lemma StillCame(requests: seq<Request>, n: nat, key: string)
    requires n < |requests|
    ensures Came(requests, n, key) || key == requests[n].key ==> Came(requests, n + 1, key)
  {
  }

  lemma NewcomerStays(limit: real, maxBuckets: nat, requests: seq<Request>, n: nat, before: Buckets,
                      after: Buckets, ok: bool)
    requires Newcomers(requests) && n < |requests| && PiledUp(requests, n, before) && maxBuckets > 0
    requires LimiterStep(limit, maxBuckets, before, requests[n], after, ok)
    ensures PiledUp(requests, n + 1, after)
  {
    hide LimiterStep, Came;
    var r := requests[n];
    IsNew(requests, n);
    hide Newcomers;
    PileGrows(requests, n, before, NewBucket(limit, r.now));
    NobodyLeaves(limit, maxBuckets, before, r, after, ok);
  }

  /** Whatever the maxima, each newcomer adds a bucket while the bucket of the empty key is the oldest. */
  lemma {:induction false} NewcomersPileUp(limit: real, maxima: seq<nat>, requests: seq<Request>,
                                           states: seq<Buckets>, answers: seq<bool>, n: nat)
    requires Newcomers(requests) && Run(limit, maxima, requests, states, answers) && n <= |requests|
    ensures PiledUp(requests, n, states[n])
  {
    hide LimiterStep, Newcomers;
    if n > 0 {
      NewcomersPileUp(limit, maxima, requests, states, answers, n - 1);
      assert LimiterStep(limit, maxima[n - 1], states[n - 1], requests[n - 1], states[n], answers[n - 1]);
      NewcomerStays(limit, maxima[n - 1], requests, n - 1, states[n - 1], states[n], answers[n - 1]);
    }
  }

  function Ones(m: nat): (maxima: seq<nat>)
    ensures |maxima| == m && forall i :: 0 <= i < m ==> maxima[i] == 1
  {
    seq(m, _ => 1)
  }

  /** The empty key at time 0, then `m - 1` other clients at time 1. */
  function Crowd(m: nat): (requests: seq<Request>)
    ensures |requests| == m
    ensures forall i :: 0 <= i < m ==> |requests[i].key| == i && requests[i].now == if i == 0 then 0.0 else 1.0
  {
    seq(m, i requires 0 <= i < m => Request(seq(i, _ => 'a'), if i == 0 then 0.0 else 1.0))
  }

  /** For every `m`, there are requests with which a limiter for one bucket always comes to hold `m` buckets. */
  lemma EmptyKeyIsNeverEvicted(limit: real, m: nat)
    requires m > 0
    ensures exists states, answers :: Run(limit, Ones(m), Crowd(m), states, answers)
    ensures forall states, answers :: Run(limit, Ones(m), Crowd(m), states, answers) ==> |states[m]| == m
  {
    hide LimiterStep, Ones, Crowd;
    assert Run(limit, Ones(m)[..0], Crowd(m)[..0], [map[]], []);
    var _, _ := RunContinues(limit, Ones(m), Crowd(m), 0, [map[]], []);
    forall states, answers | Run(limit, Ones(m), Crowd(m), states, answers) ensures |states[m]| == m {
      NewcomersPileUp(limit, Ones(m), Crowd(m), states, answers, m);
    }
  }

  lemma {:induction false} ReferenceInBounds(limit: real, requests: seq<Request>, n: nat)
    requires limit >= 1.0 && ClockNeverGoesBack(requests) && 0 < n <= |requests|
    ensures AllInBounds(limit, Reference(limit, requests, n), requests[n - 1].now)
  {
    if n > 1 {
      ReferenceInBounds(limit, requests, n - 1);
      ServeInBounds(limit, Reference(limit, requests, n - 1), requests[n - 2].now, requests[n - 1]);
    } else {
      ServeInBounds(limit, map[], requests[0].now, requests[0]);
    }
  }

  // ----------------------------------------------------- idle eviction is invisible

  /** The limiter holds what the reference holds, except for buckets that were idle when it dropped them. */
  ghost predicate Tracks(swept: Buckets, reference: Buckets, now: real) {
    && (forall k :: k in swept ==> k in reference && reference[k] == swept[k])
    && (forall k :: k in reference && k !in swept ==> Idle(reference[k], now))
  }

  lemma SameAnswer(limit: real, swept: Buckets, reference: Buckets, before: real, r: Request)
    requires limit >= 1.0 && before <= r.now
    requires Tracks(swept, reference, before) && AllInBounds(limit, reference, before)
    ensures SweepAndServe(limit, swept, r).1 == Serve(limit, reference, r).1
    ensures Tracks(SweepAndServe(limit, swept, r).0, Serve(limit, reference, r).0, r.now)
  {
    hide Gain;
    var active := Active(swept, r.now);
    assert Tracks(active, reference, r.now);
    if r.key !in active && r.key in reference {
      assert Idle(reference[r.key], r.now);
      assert Refilled(limit, reference[r.key], r.now) == limit;
    }
  }

  lemma {:induction false} SweptTracksReference(limit: real, requests: seq<Request>, n: nat)
    requires limit >= 1.0 && ClockNeverGoesBack(requests) && 0 < n <= |requests|
    ensures Tracks(Swept(limit, requests, n), Reference(limit, requests, n), requests[n - 1].now)
  {
    if n > 1 {
      SweptTracksReference(limit, requests, n - 1);
      ReferenceInBounds(limit, requests, n - 1);
      SameAnswer(limit, Swept(limit, requests, n - 1), Reference(limit, requests, n - 1), requests[n - 2].now,
                 requests[n - 1]);
    } else {
      SameAnswer(limit, map[], map[], requests[0].now, requests[0]);
    }
  }

  lemma SweepingIsInvisible(limit: real, requests: seq<Request>, n: nat)
    requires limit >= 1.0 && ClockNeverGoesBack(requests) && n < |requests|
    ensures Allows(limit, requests, n) == ReferenceAllows(limit, requests, n)
  {
    if n == 0 {
      SameAnswer(limit, map[], map[], requests[0].now, requests[0]);
    } else {
      SweptTracksReference(limit, requests, n);
      ReferenceInBounds(limit, requests, n);
      SameAnswer(limit, Swept(limit, requests, n), Reference(limit, requests, n), requests[n - 1].now, requests[n]);
    }
  }

  /** While the map is never full, every answer of every run is that of the reference that never drops a bucket. */
  lemma IdleEvictionIsInvisible(limit: real, maxima: seq<nat>, requests: seq<Request>, states: seq<Buckets>,
                                answers: seq<bool>, n: nat)
    requires limit >= 1.0 && ClockNeverGoesBack(requests) && n < |requests|
    requires Run(limit, maxima, requests, states, answers) && NeverFull(maxima, requests, states)
    ensures answers[n] == ReferenceAllows(limit, requests, n)
  {
    RunIsSwept(limit, maxima, requests, states, answers, n);
    SweepingIsInvisible(limit, requests, n);
  }

  // ------------------------------------------------------------- the window bound

  /** Requests of one client let through among those numbered `i` up to `j`. */
  function Admitted(requests: seq<Request>, answers: seq<bool>, key: string, i: nat, j: nat): nat
    requires i <= j <= |requests| == |answers|
    decreases j
  {
    if i == j then 0
    else Admitted(requests, answers, key, i, j - 1) + if requests[j - 1].key == key && answers[j - 1] then 1 else 0
  }

  /** The bucket of this client makes room for another, although it is not idle. */
  ghost predicate Dropped(before: Buckets, r: Request, after: Buckets, key: string) {
    key in Active(before, r.now) && key !in after
  }

  /** How often that happens at the requests numbered `i` up to `j`. */
  ghost function Drops(requests: seq<Request>, states: seq<Buckets>, key: string, i: nat, j: nat): nat
    requires i <= j <= |requests| && |states| == |requests| + 1
    decreases j
  {
    if i == j then 0
    else Drops(requests, states, key, i, j - 1)
         + if Dropped(states[j - 1], requests[j - 1], states[j], key) then 1 else 0
  }

  /** What the client could spend at time `now`. */
  function Credit(limit: real, buckets: Buckets, key: string, now: real): real {
    if key in buckets then Refilled(limit, buckets[key], now) else limit
  }

  /** In time, credit grows at the rate of the limit, up to the limit. */
  lemma CreditGrows(limit: real, buckets: Buckets, key: string, now: real, later: real)
    requires limit >= 1.0 && AllInBounds(limit, buckets, now) && now <= later
    ensures Credit(limit, buckets, key, later) ==
            MinReal(limit, Credit(limit, buckets, key, now) + Gain(limit, later - now))
  {
    hide Gain;
    GainIsPositive(limit, later - now);
    if key in buckets {
      var b := buckets[key];
      GainIsPositive(limit, now - b.lastRefill);
      GainIsPositive(limit, later - b.lastRefill);
      GainAdds(limit, now - b.lastRefill, later - now);
    }
  }

  /** A request let through costs its client one token of credit and nobody else any. */
  lemma ServeSpendsCredit(limit: real, buckets: Buckets, r: Request, key: string)
    requires limit >= 1.0 && AllInBounds(limit, buckets, r.now)
    ensures var (after, ok) := Serve(limit, buckets, r);
            Credit(limit, after, key, r.now) ==
            Credit(limit, buckets, key, r.now) - if key == r.key && ok then 1.0 else 0.0
  {
    GainOfNothing(limit);
    if r.key in buckets { GainIsPositive(limit, r.now - buckets[r.key].lastRefill); }
    hide Gain;
  }

  lemma GainOfNothing(limit: real)
    ensures Gain(limit, 0.0) == 0.0
  {
  }

  /** The idle sweep takes away nothing that the client could spend. */
  lemma SweepKeepsCredit(limit: real, buckets: Buckets, key: string, now: real, before: real)
    requires limit >= 1.0 && AllInBounds(limit, buckets, before) && before <= now
    ensures Credit(limit, Active(buckets, now), key, now) == Credit(limit, buckets, key, now)
    ensures AllInBounds(limit, Active(buckets, now), now)
  {
    hide Gain;
    if key in buckets && Idle(buckets[key], now) {
      assert Refilled(limit, buckets[key], now) == limit;
    }
  }

  lemma RoomCostsNothing(limit: real, active: Buckets, r: Request, room: Buckets, key: string)
    requires limit >= 1.0 && AllInBounds(limit, active, r.now) && r.key !in active && MadeRoom(active, room)
    ensures var after := room[r.key := NewBucket(limit, r.now)];
            Credit(limit, after, key, r.now) + (if key == r.key then 1.0 else 0.0) ==
            if key in active && key !in after then limit else Credit(limit, active, key, r.now)
  {
    hide Gain, Oldest;
    GainOfNothing(limit);
    if key in active {
      GainIsPositive(limit, r.now - active[key].lastRefill);
    }
  }

  /** A request let through costs its client a token; losing the bucket to another client restores the credit. */
  lemma StepSpendsCredit(limit: real, maxBuckets: nat, before: Buckets, r: Request, after: Buckets, ok: bool,
                         key: string, earlier: real)
    requires limit >= 1.0 && AllInBounds(limit, before, earlier) && earlier <= r.now
    requires LimiterStep(limit, maxBuckets, before, r, after, ok)
    ensures Credit(limit, after, key, r.now) + (if key == r.key && ok then 1.0 else 0.0) ==
            if Dropped(before, r, after, key) then limit else Credit(limit, before, key, r.now)
  {
    hide Gain, Refilled, Active, Spend, AllInBounds;
    var active := Active(before, r.now);
    SweepKeepsCredit(limit, before, key, r.now, earlier);
    if Full(maxBuckets, before, r) {
      var room :| MadeRoom(active, room) && after == room[r.key := NewBucket(limit, r.now)];
      RoomCostsNothing(limit, active, r, room, key);
    } else {
      ServeSpendsCredit(limit, active, r, key);
    }
  }

  lemma StateInBounds(limit: real, maxima: seq<nat>, requests: seq<Request>, states: seq<Buckets>, answers: seq<bool>,
                      n: nat)
    requires limit >= 1.0 && ClockNeverGoesBack(requests) && n < |requests|
    requires Run(limit, maxima, requests, states, answers)
    ensures AllInBounds(limit, states[n], if n == 0 then requests[0].now else requests[n - 1].now)
  {
    hide LimiterStep;
    if n > 0 {
      TokensStayInBounds(limit, maxima, requests, states, answers, n);
    }
  }

  /** What `e` lost buckets are worth to their client at most. */
  function Refund(limit: real, e: nat): real {
    e as real * limit
  }

  lemma RefundGrows(limit: real, e: nat)
    ensures Refund(limit, e + 1) == Refund(limit, e) + limit && Refund(limit, 0) == 0.0
  {
  }

  lemma {:induction false} AdmittedAgainstCredit(limit: real, maxima: seq<nat>, requests: seq<Request>,
                                                 states: seq<Buckets>, answers: seq<bool>, key: string, i: nat, j: nat)
    requires limit >= 1.0 && ClockNeverGoesBack(requests) && i < j <= |requests|
    requires Run(limit, maxima, requests, states, answers)
    ensures Admitted(requests, answers, key, i, j) as real + Credit(limit, states[j], key, requests[j - 1].now)
            <= limit + Refund(limit, Drops(requests, states, key, i, j))
               + Gain(limit, requests[j - 1].now - requests[i].now)
    decreases j
  {
    hide Gain, Refilled, LimiterStep, AllInBounds, Dropped, Refund, Credit;
    var r, earlier := requests[j - 1], if j == 1 then requests[0].now else requests[j - 2].now;
    var before := states[j - 1];
    StateInBounds(limit, maxima, requests, states, answers, j - 1);
    assert LimiterStep(limit, maxima[j - 1], before, r, states[j], answers[j - 1]);
    StepSpendsCredit(limit, maxima[j - 1], before, r, states[j], answers[j - 1], key, earlier);
    CreditGrows(limit, before, key, earlier, r.now);
    CreditIsLimited(limit, before, key, earlier, r.now);
    RefundGrows(limit, Drops(requests, states, key, i, j - 1));
    if j - 1 == i {
      GainOfNothing(limit);
    } else {
      AdmittedAgainstCredit(limit, maxima, requests, states, answers, key, i, j - 1);
      GainAdds(limit, requests[j - 2].now - requests[i].now, r.now - requests[j - 2].now);
    }
  }

  lemma CreditIsLimited(limit: real, buckets: Buckets, key: string, now: real, later: real)
    requires limit >= 1.0 && AllInBounds(limit, buckets, now) && now <= later
    ensures 0.0 <= Credit(limit, buckets, key, later) <= limit
  {
    hide Gain;
    if key in buckets {
      GainIsPositive(limit, later - buckets[key].lastRefill);
    }
  }

  /**
   In every run, full map or not: in any window of length `w` in which its bucket makes room for other clients
   `e` times, a client gets at most limit + e * limit + w * limit / interval requests through.
   */
  lemma WindowBoundWithDrops(limit: real, maxima: seq<nat>, requests: seq<Request>, states: seq<Buckets>,
                             answers: seq<bool>, key: string, i: nat, j: nat, w: real)
    requires limit >= 1.0 && ClockNeverGoesBack(requests) && i < j <= |requests|
    requires Run(limit, maxima, requests, states, answers) && requests[j - 1].now - requests[i].now <= w
    ensures Admitted(requests, answers, key, i, j) as real <=
            limit + Refund(limit, Drops(requests, states, key, i, j)) + w * limit / INTERVAL
  {
    hide LimiterStep, AllInBounds, Credit, Refund, Gain;
    AdmittedAgainstCredit(limit, maxima, requests, states, answers, key, i, j);
    TokensStayInBounds(limit, maxima, requests, states, answers, j);
    CreditIsLimited(limit, states[j], key, requests[j - 1].now, requests[j - 1].now);
    var span := requests[j - 1].now - requests[i].now;
    GainIsPositive(limit, w - span);
    GainAdds(limit, span, w - span);
    GainAsRate(limit, w);
  }

  // ---------------------------------------------------- when a request is let through

  /** A request is let through exactly when its client has the credit for it. */
  lemma CreditDecides(limit: real, maxBuckets: nat, before: Buckets, r: Request, after: Buckets, ok: bool,
                      earlier: real)
    requires limit >= 1.0 && AllInBounds(limit, before, earlier) && earlier <= r.now
    requires LimiterStep(limit, maxBuckets, before, r, after, ok)
    ensures ok <==> Credit(limit, before, r.key, r.now) >= 1.0
  {
    hide Gain, Refilled, Active;
    SweepKeepsCredit(limit, before, r.key, r.now, earlier);
  }

  lemma DroppedHasFullCredit(limit: real, before: Buckets, r: Request, after: Buckets, key: string, later: real)
    ensures Dropped(before, r, after, key) ==> Credit(limit, after, key, later) == limit
  {
  }

  /** What request `i` would leave for request `n`, had its client had full credit at request `i`. */
  function Allowance(limit: real, requests: seq<Request>, answers: seq<bool>, key: string, i: nat, n: nat): real
    requires i <= n < |requests| == |answers|
  {
    limit + Gain(limit, requests[n].now - requests[i].now) - Admitted(requests, answers, key, i, n) as real
  }

  /** The client's credit is no larger than any of these since its bucket was last lost to another client. */
  ghost predicate Capped(limit: real, requests: seq<Request>, states: seq<Buckets>, answers: seq<bool>, key: string,
                         n: nat, credit: real)
    requires n < |requests| == |answers| && |states| == |requests| + 1
  {
    forall i :: 0 <= i <= n && Drops(requests, states, key, i, n) == 0 ==>
                  credit <= Allowance(limit, requests, answers, key, i, n)
  }

  ghost predicate Attained(limit: real, requests: seq<Request>, states: seq<Buckets>, answers: seq<bool>, key: string,
                           n: nat, i: nat, credit: real)
    requires i <= n < |requests| == |answers| && |states| == |requests| + 1
  {
    Drops(requests, states, key, i, n) == 0 && credit == Allowance(limit, requests, answers, key, i, n)
  }

  lemma AllowanceNext(limit: real, requests: seq<Request>, answers: seq<bool>, key: string, i: nat, n: nat)
    requires i < n < |requests| == |answers|
    ensures Allowance(limit, requests, answers, key, i, n) ==
            Allowance(limit, requests, answers, key, i, n - 1)
            + Gain(limit, requests[n].now - requests[n - 1].now)
            - if requests[n - 1].key == key && answers[n - 1] then 1.0 else 0.0
    ensures Allowance(limit, requests, answers, key, n, n) == limit
  {
    hide Gain;
    GainOfNothing(limit);
    GainAdds(limit, requests[n - 1].now - requests[i].now, requests[n].now - requests[n - 1].now);
  }

  /** Between two requests: the credit before the later one from that before the earlier one. */
  lemma CreditNext(limit: real, maxima: seq<nat>, requests: seq<Request>, states: seq<Buckets>, answers: seq<bool>,
                   key: string, n: nat)
    requires limit >= 1.0 && ClockNeverGoesBack(requests) && 0 < n < |requests|
    requires Run(limit, maxima, requests, states, answers)
    ensures var spent := if requests[n - 1].key == key && answers[n - 1] then 1.0 else 0.0;
            Credit(limit, states[n], key, requests[n].now) ==
            if Dropped(states[n - 1], requests[n - 1], states[n], key) then limit
            else MinReal(limit, Credit(limit, states[n - 1], key, requests[n - 1].now) - spent
                                + Gain(limit, requests[n].now - requests[n - 1].now))
  {
    hide Gain, LimiterStep, AllInBounds, Dropped, Credit;
    var r, earlier := requests[n - 1], if n == 1 then requests[0].now else requests[n - 2].now;
    StateInBounds(limit, maxima, requests, states, answers, n - 1);
    assert LimiterStep(limit, maxima[n - 1], states[n - 1], r, states[n], answers[n - 1]);
    StepSpendsCredit(limit, maxima[n - 1], states[n - 1], r, states[n], answers[n - 1], key, earlier);
    TokensStayInBounds(limit, maxima, requests, states, answers, n);
    CreditGrows(limit, states[n], key, r.now, requests[n].now);
    DroppedHasFullCredit(limit, states[n - 1], r, states[n], key, requests[n].now);
  }

  /** The credit before a request is the least of these allowances. */
  lemma {:induction false} CreditIsLeast(limit: real, maxima: seq<nat>, requests: seq<Request>, states: seq<Buckets>,
                                         answers: seq<bool>, key: string, n: nat) returns (i: nat)
    requires limit >= 1.0 && ClockNeverGoesBack(requests) && n < |requests|
    requires Run(limit, maxima, requests, states, answers)
    ensures Capped(limit, requests, states, answers, key, n, Credit(limit, states[n], key, requests[n].now))
    ensures i <= n && Attained(limit, requests, states, answers, key, n, i,
                               Credit(limit, states[n], key, requests[n].now))
  {
    hide Gain, LimiterStep, Dropped, Credit, Allowance;
    var credit := Credit(limit, states[n], key, requests[n].now);
    i := n;
    FullCreditAtFirst(limit, requests, answers, key, n);
    if n == 0 {
      NobodyKnown(limit, key, requests[0].now);
    } else {
      i := CreditIsLeast(limit, maxima, requests, states, answers, key, n - 1);
      CreditNext(limit, maxima, requests, states, answers, key, n);
      AllowanceNext(limit, requests, answers, key, i, n);
      forall k | 0 <= k <= n && Drops(requests, states, key, k, n) == 0
        ensures credit <= Allowance(limit, requests, answers, key, k, n)
      {
        if k < n {
          AllowanceNext(limit, requests, answers, key, k, n);
        }
      }
      if credit == limit {
        i := n;
      }
    }
  }

  lemma FullCreditAtFirst(limit: real, requests: seq<Request>, answers: seq<bool>, key: string, n: nat)
    requires n < |requests| == |answers|
    ensures Allowance(limit, requests, answers, key, n, n) == limit
  {
    GainOfNothing(limit);
  }

  lemma NobodyKnown(limit: real, key: string, now: real)
    ensures Credit(limit, map[], key, now) == limit
  {
  }

  /** With this request, those of its client let through since request `i` are within burst and rate. */
  ghost predicate WithinRate(limit: real, requests: seq<Request>, answers: seq<bool>, i: nat, n: nat)
    requires i <= n < |requests| == |answers|
  {
    Admitted(requests, answers, requests[n].key, i, n) as real + 1.0 <=
    limit + (requests[n].now - requests[i].now) * limit / 60.0
  }

  /**
   In every run, full map or not, a request is let through exactly when for every earlier request `i` since its
   client's bucket was last lost to another client, the client's requests let through from `i` on, with this one,
   are at most the limit plus sixtieths of it for every second since `i`.
   */
  lemma AllowedIff(limit: real, maxima: seq<nat>, requests: seq<Request>, states: seq<Buckets>, answers: seq<bool>,
                   n: nat)
    requires limit >= 1.0 && ClockNeverGoesBack(requests) && n < |requests|
    requires Run(limit, maxima, requests, states, answers)
    ensures answers[n] <==> forall i :: 0 <= i <= n && Drops(requests, states, requests[n].key, i, n) == 0 ==>
                                          WithinRate(limit, requests, answers, i, n)
  {
    hide LimiterStep, Drops, Credit, Allowance, WithinRate;
    var key := requests[n].key;
    assert LimiterStep(limit, maxima[n], states[n], requests[n], states[n + 1], answers[n]);
    StateInBounds(limit, maxima, requests, states, answers, n);
    CreditDecides(limit, maxima[n], states[n], requests[n], states[n + 1], answers[n],
                  if n == 0 then requests[0].now else requests[n - 1].now);
    var least := CreditIsLeast(limit, maxima, requests, states, answers, key, n);
    forall i | 0 <= i <= n
      ensures WithinRate(limit, requests, answers, i, n) <==> Allowance(limit, requests, answers, key, i, n) >= 1.0
    {
      RateOfAllowance(limit, requests, answers, i, n);
    }
  }

  lemma RateOfAllowance(limit: real, requests: seq<Request>, answers: seq<bool>, i: nat, n: nat)
    requires i <= n < |requests| == |answers|
    ensures WithinRate(limit, requests, answers, i, n) <==>
            Allowance(limit, requests, answers, requests[n].key, i, n) >= 1.0
  {
    GainAsRate(limit, requests[n].now - requests[i].now);
    hide Gain;
  }

  /** While the map is never full, that is: for every earlier request. */
  lemma NeverFullAllowedIff(limit: real, maxima: seq<nat>, requests: seq<Request>, states: seq<Buckets>,
                            answers: seq<bool>, n: nat)
    requires limit >= 1.0 && ClockNeverGoesBack(requests) && n < |requests|
    requires Run(limit, maxima, requests, states, answers) && NeverFull(maxima, requests, states)
    ensures answers[n] <==> forall i :: 0 <= i <= n ==> WithinRate(limit, requests, answers, i, n)
  {
    hide LimiterStep, WithinRate, Full;
    AllowedIff(limit, maxima, requests, states, answers, n);
    forall i | 0 <= i <= n ensures Drops(requests, states, requests[n].key, i, n) == 0 {
      NeverFullNeverDrops(limit, maxima, requests, states, answers, requests[n].key, i, n);
    }
  }

  lemma GainAsRate(limit: real, w: real)
    ensures Gain(limit, w) == w * limit / INTERVAL
  {
  }

  lemma {:induction false} NeverFullNeverDrops(limit: real, maxima: seq<nat>, requests: seq<Request>,
                                               states: seq<Buckets>, answers: seq<bool>, key: string, i: nat, j: nat)
    requires i <= j <= |requests|
    requires Run(limit, maxima, requests, states, answers) && NeverFull(maxima, requests, states)
    ensures Drops(requests, states, key, i, j) == 0
    decreases j
  {
    hide Active, Spend;
    if i < j {
      NeverFullNeverDrops(limit, maxima, requests, states, answers, key, i, j - 1);
      assert LimiterStep(limit, maxima[j - 1], states[j - 1], requests[j - 1], states[j], answers[j - 1]);
    }
  }

  /** While the map is never full, that is at most limit + w * limit / interval. */
  lemma WindowBound(limit: real, maxima: seq<nat>, requests: seq<Request>, states: seq<Buckets>, answers: seq<bool>,
                    key: string, i: nat, j: nat, w: real)
    requires limit >= 1.0 && ClockNeverGoesBack(requests) && i < j <= |requests|
    requires Run(limit, maxima, requests, states, answers) && NeverFull(maxima, requests, states)
    requires requests[j - 1].now - requests[i].now <= w
    ensures Admitted(requests, answers, key, i, j) as real <= limit + w * limit / INTERVAL
  {
    hide LimiterStep;
    WindowBoundWithDrops(limit, maxima, requests, states, answers, key, i, j, w);
    NeverFullNeverDrops(limit, maxima, requests, states, answers, key, i, j);
    RefundGrows(limit, 0);
  }
}
