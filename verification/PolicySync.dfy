/**
 The in-memory policy cache of a node and its hash-guarded refresh.

 Saves and deletes have two halves, a change of the shared repository and a later
 change of the local cache; other nodes change the repository at any time. A
 refresh reads the repository under the lock that also guards the cache, and
 skips the reload when the hash of what it read equals the hash it remembers.

 JSON encoding and SHA-256 are one parameter, `digest`. It is asked not to collide
 on the lists read.
 */
module PolicySync {
  import opened Outcomes
  import opened Rbac
  import opened Glob

  // ------------------------------------------------------------ sorting by name

  predicate Less(a: string, b: string) {
    b != [] && (a == [] || a[0] < b[0] || (a[0] == b[0] && Less(a[1..], b[1..])))
  }

  /** `a` and `b` agree up to `k`, where `a` ends or has the smaller character. */
  ghost predicate SmallerAt(a: string, b: string, k: nat) {
    k <= |a| && k < |b| && a[..k] == b[..k] && (k == |a| || a[k] < b[k])
  }

  lemma AgreesAtFirst(a: string, b: string, k: nat)
    ensures SmallerAt(a, b, k) && k > 0 ==> a != [] && b != [] && a[0] == b[0]
  {
    if SmallerAt(a, b, k) && k > 0 {
      assert a[..k][0] == b[..k][0];
    }
  }

  /** The first difference decides. */
  lemma {:induction false} LessIff(a: string, b: string)
    ensures Less(a, b) <==> exists k: nat :: SmallerAt(a, b, k)
    decreases |a|
  {
    if b == [] || a == [] || a[0] != b[0] {
      if Less(a, b) {
        assert SmallerAt(a, b, 0);
      }
      if exists k: nat :: SmallerAt(a, b, k) {
        var k: nat :| SmallerAt(a, b, k);
        AgreesAtFirst(a, b, k);
      }
    } else {
      LessIff(a[1..], b[1..]);
      forall k: nat ensures SmallerAt(a[1..], b[1..], k) <==> SmallerAt(a, b, k + 1) {
        SmallerLater(a, b, k);
      }
      if exists k: nat :: SmallerAt(a, b, k) {
        var k: nat :| SmallerAt(a, b, k);
        assert SmallerAt(a[1..], b[1..], k - 1);
      }
    }
  }

  lemma SmallerLater(a: string, b: string, k: nat)
    requires a != [] && b != [] && a[0] == b[0]
    ensures SmallerAt(a[1..], b[1..], k) <==> SmallerAt(a, b, k + 1)
  {
    if k < |a| && k + 1 < |b| {
      assert a[..k + 1] == [a[0]] + a[1..][..k] && b[..k + 1] == [b[0]] + b[1..][..k];
      assert a[1..][..k] == a[..k + 1][1..] && b[1..][..k] == b[..k + 1][1..];
    }
  }

  /** In order of name, the first difference deciding. */
  ghost predicate Alphabetical(list: seq<Policy>) {
    forall i, j, k: nat :: 0 <= i < j < |list| ==> !SmallerAt(list[j].name, list[i].name, k)
  }

  lemma OrderedIsAlphabetical(list: seq<Policy>)
    ensures Ordered(list) <==> Alphabetical(list)
  {
    hide Less, SmallerAt;
    forall i, j | 0 <= i < j < |list|
      ensures Less(list[j].name, list[i].name) <==> exists k: nat :: SmallerAt(list[j].name, list[i].name, k)
    {
      LessIff(list[j].name, list[i].name);
    }
  }

  lemma {:induction false} LessTotal(a: string, b: string)
    ensures Less(a, b) || a == b || Less(b, a)
    ensures !(Less(a, b) && Less(b, a)) && !Less(a, a)
    decreases |a|
  {
    if a != [] {
      LessTotal(a[1..], a[1..]);
      if b != [] && a[0] == b[0] {
        LessTotal(a[1..], b[1..]);
        assert a == [a[0]] + a[1..] && b == [b[0]] + b[1..];
      }
    }
  }

  lemma {:induction false} LessTransitive(a: string, b: string, c: string)
    requires Less(a, b) && Less(b, c)
    ensures Less(a, c)
    decreases |a|
  {
    if a != [] && a[0] == b[0] == c[0] {
      LessTransitive(a[1..], b[1..], c[1..]);
    }
  }

  ghost predicate Ordered(list: seq<Policy>) {
    forall i, j :: 0 <= i < j < |list| ==> !Less(list[j].name, list[i].name)
  }

  /** How many policies of the list have a smaller name. */
  function Rank(p: Policy, list: seq<Policy>): (k: nat)
    ensures k <= |list|
    ensures forall i :: 0 <= i < k ==> Less(list[i].name, p.name)
    ensures k < |list| ==> !Less(list[k].name, p.name)
  {
    if list == [] || !Less(list[0].name, p.name) then 0 else 1 + Rank(p, list[1..])
  }

  function SortByName(list: seq<Policy>): (r: seq<Policy>)
    ensures multiset(r) == multiset(list)
  {
    if list == [] then []
    else
      var p, rest := list[0], SortByName(list[1..]);
      var k := Rank(p, rest);
      InsertKeeps(list, rest, k);
      rest[..k] + [p] + rest[k..]
  }

  lemma InsertKeeps(list: seq<Policy>, rest: seq<Policy>, k: nat)
    requires list != [] && multiset(rest) == multiset(list[1..]) && k <= |rest|
    ensures multiset(rest[..k] + [list[0]] + rest[k..]) == multiset(list)
  {
    assert list == [list[0]] + list[1..];
    assert rest == rest[..k] + rest[k..];
  }

  lemma {:induction false} SortByNameOrdered(list: seq<Policy>)
    ensures Ordered(SortByName(list))
  {
    if list != [] {
      SortByNameOrdered(list[1..]);
      var p, rest := list[0], SortByName(list[1..]);
      var k := Rank(p, rest);
      var r := rest[..k] + [p] + rest[k..];
      forall i, j | 0 <= i < j < |r| ensures !Less(r[j].name, r[i].name) {
        InsertOrdered(rest, p, k, i, j);
      }
    }
  }

  lemma InsertOrdered(rest: seq<Policy>, p: Policy, k: nat, i: nat, j: nat)
    requires Ordered(rest) && k == Rank(p, rest) && i < j < |rest| + 1
    ensures var r := rest[..k] + [p] + rest[k..]; !Less(r[j].name, r[i].name)
  {
    var r := rest[..k] + [p] + rest[k..];
    LessTotal(r[i].name, r[j].name);
    if i == k {
      var first, other := rest[k].name, rest[j - 1].name;
      LessTotal(first, other);
      LessTotal(first, p.name);
      if Less(other, p.name) {
        if Less(first, other) { LessTransitive(first, other, p.name); }
      }
    }
  }

  lemma SameFirst(a: seq<Policy>, b: seq<Policy>)
    requires Ordered(a) && Ordered(b) && DistinctNames(a) && a != [] && b != []
    requires a[0] in b && b[0] in a
    ensures a[0] == b[0]
  {
    var i :| 0 <= i < |b| && b[i] == a[0];
    var j :| 0 <= j < |a| && a[j] == b[0];
    LessTotal(a[0].name, b[0].name);
  }

  lemma TailOrdered(a: seq<Policy>)
    requires a != []
    ensures Ordered(a) ==> Ordered(a[1..])
    ensures DistinctNames(a) ==> DistinctNames(a[1..])
  {
    hide Less;
  }

  /** Sorting by distinct names has one possible outcome. */
  lemma {:induction false} OrderedUnique(a: seq<Policy>, b: seq<Policy>)
    requires Ordered(a) && Ordered(b) && multiset(a) == multiset(b) && DistinctNames(a)
    ensures a == b
    decreases |a|
  {
    hide Ordered, DistinctNames;
    assert |a| == |multiset(a)| == |multiset(b)| == |b|;
    if a != [] {
      assert a[0] in multiset(b) && b[0] in multiset(a);
      SameFirst(a, b);
      TailOrdered(a);
      TailOrdered(b);
      assert a == [a[0]] + a[1..] && b == [b[0]] + b[1..];
      assert multiset(a[1..]) == multiset(a) - multiset{a[0]} == multiset(b[1..]);
      OrderedUnique(a[1..], b[1..]);
    }
  }

  // -------------------------------------------------------------------- hashing

  type Digest = seq<Policy> -> string

  function HashPolicies(digest: Digest, list: seq<Policy>): string {
    if list == [] then "" else digest(SortByName(list))
  }

  /** The hash does not depend on the order in which the repository lists its policies. */
  lemma HashIgnoresOrder(digest: Digest, a: seq<Policy>, b: seq<Policy>)
    requires DistinctNames(a) && multiset(a) == multiset(b)
    ensures HashPolicies(digest, a) == HashPolicies(digest, b)
  {
    SortByNameOrdered(a);
    SortByNameOrdered(b);
    SortedDistinct(a);
    OrderedUnique(SortByName(a), SortByName(b));
    assert a == [] <==> |multiset(a)| == 0;
    assert b == [] <==> |multiset(b)| == 0;
  }

  lemma SortedDistinct(a: seq<Policy>)
    requires DistinctNames(a)
    ensures DistinctNames(SortByName(a))
  {
    hide SortByName;
    var s := SortByName(a);
    forall i, j | 0 <= i < j < |s| ensures s[i].name != s[j].name {
      assert s[i] in multiset(s) && s[j] in multiset(s);
      assert s[i] in a && s[j] in a;
      AtMostOnce(a, s[i]);
      OccursAt(s, i, j);
      DifferentPoliciesDifferentNames(a, s[i], s[j]);
    }
  }

  lemma OccursAt(s: seq<Policy>, i: nat, j: nat)
    requires i < j < |s| && multiset(s)[s[i]] <= 1
    ensures s[i] != s[j]
  {
    assert s == s[..i] + [s[i]] + s[i + 1..j] + [s[j]] + s[j + 1..];
  }

  lemma DifferentPoliciesDifferentNames(a: seq<Policy>, p: Policy, q: Policy)
    requires DistinctNames(a) && p in a && q in a && p != q
    ensures p.name != q.name
  {
  }

  lemma {:induction false} AtMostOnce(a: seq<Policy>, p: Policy)
    requires DistinctNames(a)
    ensures multiset(a)[p] <= 1
  {
    if a != [] {
      var n := |a| - 1;
      assert a == a[..n] + [a[n]];
      AtMostOnce(a[..n], p);
      assert a[n] !in a[..n];
    }
  }

  // ---------------------------------------------------------------- the overlay

  const BUILT_IN := Overlay(map[], DEFAULTS)

  /** The cache a reload builds from a list. */
  function Loaded(list: seq<Policy>): Policies {
    Overlay(BUILT_IN, list)
  }

  lemma OverlayIgnoresOrder(base: Policies, a: seq<Policy>, b: seq<Policy>)
    requires DistinctNames(a) && DistinctNames(b) && multiset(a) == multiset(b)
    ensures Overlay(base, a) == Overlay(base, b)
  {
    assert forall p :: p in a <==> p in multiset(a);
    assert forall p :: p in b <==> p in multiset(b);
    forall x
      ensures x in Overlay(base, a) <==> x in Overlay(base, b)
      ensures x in Overlay(base, a) ==> Overlay(base, a)[x] == Overlay(base, b)[x]
    {
      OverlayLookup(base, a, x);
      OverlayLookup(base, b, x);
    }
  }

  ghost predicate NoCollision(digest: Digest, a: seq<Policy>, b: seq<Policy>) {
    digest(SortByName(a)) == digest(SortByName(b)) ==> SortByName(a) == SortByName(b)
  }

  /** Lists with the same non-empty hash load the same cache. */
  lemma SameHashSameCache(digest: Digest, a: seq<Policy>, b: seq<Policy>)
    requires a != [] && b != [] && DistinctNames(a) && DistinctNames(b)
    requires NoCollision(digest, a, b) && HashPolicies(digest, a) == HashPolicies(digest, b)
    ensures Loaded(a) == Loaded(b)
  {
    OverlayIgnoresOrder(BUILT_IN, a, b);
  }

  // ----------------------------------------------------------- the steps of a node

  datatype Change = Upsert(policy: Policy) | Remove(name: string)

  datatype State = State(
    repo: Policies,                  // shared, changed by every node
    rbac: Policies, hash: string,    // this node's cache and remembered hash
    pending: seq<Change>,            // local saves and deletes whose second half is still to come
    reading: Option<seq<Policy>>)    // the list read by a refresh that holds the lock

  datatype Step =
    | RemoteSave(policy: Policy)
    | RemoteDelete(name: string)
    | SaveRepo(policy: Policy)
    | DeleteRepo(name: string)
    | Apply(which: nat)
    | Read(list: seq<Policy>)
    | Refresh(force: bool)
    | GiveUp

  /** The repository lists each of its policies once, in some order. */
  ghost predicate Lists(repo: Policies, list: seq<Policy>) {
    DistinctNames(list) && forall p :: p in list <==> p.name in repo && repo[p.name] == p
  }

  ghost predicate ByName(policies: Policies) {
    forall x :: x in policies ==> policies[x].name == x
  }

  function Without<T>(s: seq<T>, i: nat): seq<T>
    requires i < |s|
  {
    s[..i] + s[i + 1..]
  }

  /** One step. With `guarded` false, a refresh always reloads. A step that is not enabled changes nothing. */
  ghost function Next(digest: Digest, guarded: bool, s: State, step: Step): State {
    match step
    case RemoteSave(p) => s.(repo := s.repo[p.name := p])
    case RemoteDelete(name) => s.(repo := s.repo - {name})
    case SaveRepo(p) => s.(repo := s.repo[p.name := p], pending := s.pending + [Upsert(p)])
    case DeleteRepo(name) =>
      if name !in s.repo then s else s.(repo := s.repo - {name}, pending := s.pending + [Remove(name)])
    case Apply(i) =>
      if s.reading.Some? || i >= |s.pending| then s
      else
        var rbac := match s.pending[i]
                    case Upsert(p) => s.rbac[p.name := p]
                    case Remove(name) => s.rbac - {name};
        s.(rbac := rbac, hash := "", pending := Without(s.pending, i))
    case Read(list) => if s.reading.Some? || !Lists(s.repo, list) then s else s.(reading := Some(list))
    case Refresh(force) =>
      if s.reading.None? then s
      else
        var list := s.reading.value;
        var hash := HashPolicies(digest, list);
        if guarded && !force && hash == s.hash && s.hash != "" then s.(reading := None)
        else s.(rbac := Loaded(list), hash := hash, reading := None)
    case GiveUp => s.(reading := None)
  }

  ghost function After(digest: Digest, guarded: bool, steps: seq<Step>): State {
    if steps == [] then State(map[], BUILT_IN, "", [], None)
    else Next(digest, guarded, After(digest, guarded, steps[..|steps| - 1]), steps[|steps| - 1])
  }

  /** No two lists read in the history collide. */
  ghost predicate CleanHistory(digest: Digest, steps: seq<Step>) {
    forall i, j :: 0 <= i < |steps| && 0 <= j < |steps| && steps[i].Read? && steps[j].Read? ==>
      NoCollision(digest, steps[i].list, steps[j].list)
  }

  /** A list read in the history, with distinct names. */
  ghost predicate WasRead(steps: seq<Step>, list: seq<Policy>) {
    DistinctNames(list) && exists i :: 0 <= i < |steps| && steps[i] == Read(list)
  }

  /** A remembered hash is the hash of a list that was read and that the cache was loaded from. */
  ghost predicate Remembers(digest: Digest, steps: seq<Step>, s: State, list: seq<Policy>) {
    WasRead(steps, list) && list != [] && s.hash == HashPolicies(digest, list) && s.rbac == Loaded(list)
  }

  ghost predicate Inv(digest: Digest, steps: seq<Step>, s: State) {
    && (s.reading.Some? ==> WasRead(steps, s.reading.value))
    && (s.hash != "" ==> exists list :: Remembers(digest, steps, s, list))
  }

  lemma WasReadGrows(steps: seq<Step>, step: Step, list: seq<Policy>)
    requires WasRead(steps, list)
    ensures WasRead(steps + [step], list)
  {
    var i :| 0 <= i < |steps| && steps[i] == Read(list);
    assert (steps + [step])[i] == Read(list);
  }

  lemma WasReadNow(steps: seq<Step>, list: seq<Policy>)
    requires DistinctNames(list)
    ensures WasRead(steps + [Read(list)], list)
  {
    assert (steps + [Read(list)])[|steps|] == Read(list);
  }

  lemma ReadsDoNotCollide(digest: Digest, steps: seq<Step>, a: seq<Policy>, b: seq<Policy>)
    requires CleanHistory(digest, steps) && WasRead(steps, a) && WasRead(steps, b)
    ensures NoCollision(digest, a, b)
  {
    var i :| 0 <= i < |steps| && steps[i] == Read(a);
    var j :| 0 <= j < |steps| && steps[j] == Read(b);
  }

  /** A refresh leaves the cache built from the list just read, whether it reloads or skips. */
  lemma RefreshLoads(digest: Digest, steps: seq<Step>, s: State, force: bool)
    requires Inv(digest, steps, s) && CleanHistory(digest, steps) && s.reading.Some?
    ensures Next(digest, true, s, Refresh(force)).rbac == Loaded(s.reading.value)
    ensures Next(digest, true, s, Refresh(force)).hash == HashPolicies(digest, s.reading.value)
  {
    hide SortByName, Loaded;
    var list := s.reading.value;
    var hash := HashPolicies(digest, list);
    if !force && hash == s.hash && s.hash != "" {
      var loaded :| Remembers(digest, steps, s, loaded);
      ReadsDoNotCollide(digest, steps, list, loaded);
      SameHashSameCache(digest, list, loaded);
    }
  }

  lemma NextKeeps(digest: Digest, steps: seq<Step>, s: State, step: Step)
    requires Inv(digest, steps, s) && CleanHistory(digest, steps)
    ensures Inv(digest, steps + [step], Next(digest, true, s, step))
  {
    hide HashPolicies, Loaded, WasRead, CleanHistory;
    var s' := Next(digest, true, s, step);
    if s.reading.Some? {
      WasReadGrows(steps, step, s.reading.value);
    }
    if step.Read? && s'.reading == Some(step.list) && s.reading.None? {
      WasReadNow(steps, step.list);
    }
    if step.Refresh? && s.reading.Some? {
      RefreshLoads(digest, steps, s, step.force);
      if s'.hash != "" {
        assert s.reading.value != [] by { HashOfNothing(digest); }
        assert Remembers(digest, steps + [step], s', s.reading.value);
      }
    } else if s'.hash != "" {
      var list :| Remembers(digest, steps, s, list);
      WasReadGrows(steps, step, list);
      assert Remembers(digest, steps + [step], s', list);
    }
  }

  lemma HashOfNothing(digest: Digest)
    ensures HashPolicies(digest, []) == ""
  {
  }

  lemma {:induction false} HistoryKeeps(digest: Digest, steps: seq<Step>)
    requires CleanHistory(digest, steps)
    ensures Inv(digest, steps, After(digest, true, steps))
  {
    if steps != [] {
      var n := |steps| - 1;
      CleanPrefix(digest, steps);
      HistoryKeeps(digest, steps[..n]);
      hide Inv, CleanHistory, Next;
      NextKeeps(digest, steps[..n], After(digest, true, steps[..n]), steps[n]);
      assert steps[..n] + [steps[n]] == steps;
    }
  }

  lemma CleanPrefix(digest: Digest, steps: seq<Step>)
    requires CleanHistory(digest, steps) && steps != []
    ensures CleanHistory(digest, steps[..|steps| - 1])
  {
    hide NoCollision;
  }

  // --------------------------------------------------------------- main results

  /** The cache holds the stored policies and, under other names, the built-in ones; nothing else. */
  ghost predicate Mirrors(cache: Policies, repo: Policies) {
    && (forall x :: x in repo ==> x in cache && cache[x] == repo[x])
    && (forall d :: d in DEFAULTS && d.name !in repo ==> d.name in cache && cache[d.name] == d)
    && forall x :: x in cache ==> x in repo || (cache[x] in DEFAULTS && cache[x].name == x)
  }

  lemma LoadedMirrors(repo: Policies, list: seq<Policy>)
    requires Lists(repo, list) && ByName(repo)
    ensures Mirrors(Loaded(list), repo)
  {
    hide Overlay, HoldsDefaults, Mirrors, Lists, ByName;
    DefaultsHold();
    OverlayCovers(BUILT_IN, repo, list);
    CoveredMirrors(BUILT_IN, repo, Loaded(list));
  }

  /** The cache holds what is stored and, under other names, what `base` holds. */
  ghost predicate Covers(base: Policies, repo: Policies, cache: Policies) {
    && (forall x :: x in cache <==> x in repo || x in base)
    && forall x :: x in cache ==> cache[x] == if x in repo then repo[x] else base[x]
  }

  lemma OverlayCovers(base: Policies, repo: Policies, list: seq<Policy>)
    requires Lists(repo, list) && ByName(repo)
    ensures Covers(base, repo, Overlay(base, list))
  {
    hide Overlay;
    forall x
      ensures x in repo ==> x in Overlay(base, list) && Overlay(base, list)[x] == repo[x]
      ensures x !in repo ==> (x in Overlay(base, list) <==> x in base)
                             && (x in base ==> Overlay(base, list)[x] == base[x])
    {
      OverlayLookup(base, list, x);
      assert x in repo ==> repo[x] in list;
    }
  }

  lemma CoveredMirrors(base: Policies, repo: Policies, cache: Policies)
    requires HoldsDefaults(base) && Covers(base, repo, cache)
    ensures Mirrors(cache, repo)
  {
  }

  lemma {:induction false} StoredUnderItsName(digest: Digest, guarded: bool, steps: seq<Step>)
    ensures ByName(After(digest, guarded, steps).repo)
  {
    hide Next;
    if steps != [] {
      var n := |steps| - 1;
      StoredUnderItsName(digest, guarded, steps[..n]);
      StoredNext(digest, guarded, After(digest, guarded, steps[..n]), steps[n]);
    }
  }

  lemma StoredNext(digest: Digest, guarded: bool, s: State, step: Step)
    requires ByName(s.repo)
    ensures ByName(Next(digest, guarded, s, step).repo)
  {
    hide Loaded, HashPolicies, Lists;
  }

  /** A list of the repository read after any history, then any steps, then the end of the refresh that read it. */
  lemma RefreshMirrors(digest: Digest, steps: seq<Step>, list: seq<Policy>, later: seq<Step>, force: bool)
    requires var s := After(digest, true, steps); s.reading.None? && Lists(s.repo, list)
    requires CleanHistory(digest, steps + [Read(list)] + later)
    requires forall i :: 0 <= i < |later| ==> !later[i].Refresh? && !later[i].GiveUp?
    ensures Mirrors(After(digest, true, steps + [Read(list)] + later + [Refresh(force)]).rbac,
                    After(digest, true, steps).repo)
  {
    hide Loaded, HashPolicies, Mirrors, CleanHistory, Lists;
    StillReading(digest, steps, list, later);
    RefreshIsFaithful(digest, steps + [Read(list)] + later, force);
    StoredUnderItsName(digest, true, steps);
    LoadedMirrors(After(digest, true, steps).repo, list);
  }

  lemma {:induction false} StillReading(digest: Digest, steps: seq<Step>, list: seq<Policy>, later: seq<Step>)
    requires var s := After(digest, true, steps); s.reading.None? && Lists(s.repo, list)
    requires forall i :: 0 <= i < |later| ==> !later[i].Refresh? && !later[i].GiveUp?
    ensures After(digest, true, steps + [Read(list)] + later).reading == Some(list)
    decreases |later|
  {
    hide Loaded, HashPolicies, Lists;
    var all := steps + [Read(list)] + later;
    if later == [] {
      assert all[..|all| - 1] == steps && all[|all| - 1] == Read(list);
    } else {
      var n := |later| - 1;
      StillReading(digest, steps, list, later[..n]);
      assert all[..|all| - 1] == steps + [Read(list)] + later[..n] && all[|all| - 1] == later[n];
    }
  }

  /** After every refresh of every history the cache is the defaults overlaid by the list that refresh read. */
  lemma RefreshIsFaithful(digest: Digest, steps: seq<Step>, force: bool)
    requires CleanHistory(digest, steps) && After(digest, true, steps).reading.Some?
    ensures var s := After(digest, true, steps);
            var s' := After(digest, true, steps + [Refresh(force)]);
            s'.rbac == Loaded(s.reading.value) && s'.reading.None?
  {
    hide HashPolicies, Loaded, WasRead, CleanHistory;
    HistoryKeeps(digest, steps);
    RefreshLoads(digest, steps, After(digest, true, steps), force);
    assert (steps + [Refresh(force)])[..|steps|] == steps;
  }

  ghost predicate SameView(s: State, t: State) {
    s.repo == t.repo && s.rbac == t.rbac && s.pending == t.pending && s.reading == t.reading
  }

  /** Skipping on an equal hash is invisible: step for step, the caches equal those of a node that always reloads. */
  lemma {:induction false} SkippingRefinesReloading(digest: Digest, steps: seq<Step>)
    requires CleanHistory(digest, steps)
    ensures SameView(After(digest, true, steps), After(digest, false, steps))
  {
    hide HashPolicies, Loaded, WasRead, CleanHistory, Next, SameView, Inv;
    if steps == [] {
      SameViewOfItself(After(digest, true, steps));
    } else {
      var n := |steps| - 1;
      CleanPrefix(digest, steps);
      SkippingRefinesReloading(digest, steps[..n]);
      HistoryKeeps(digest, steps[..n]);
      SameViewStep(digest, steps[..n], After(digest, true, steps[..n]), After(digest, false, steps[..n]), steps[n]);
    }
  }

  lemma SameViewOfItself(s: State)
    ensures SameView(s, s)
  {
  }

  lemma SameViewStep(digest: Digest, steps: seq<Step>, s: State, t: State, step: Step)
    requires Inv(digest, steps, s) && CleanHistory(digest, steps) && SameView(s, t)
    ensures SameView(Next(digest, true, s, step), Next(digest, false, t, step))
  {
    hide HashPolicies, Loaded, WasRead, CleanHistory;
    if step.Refresh? && s.reading.Some? {
      RefreshLoads(digest, steps, s, step.force);
    }
  }

  // -------------------------------------------------------------- the service

  /** Double stars in a pattern, not counting overlaps. */
  function DoubleStars(pattern: string): nat {
    if |pattern| < 2 then 0
    else if pattern[0] == '*' && pattern[1] == '*' then 1 + DoubleStars(pattern[2..])
    else DoubleStars(pattern[1..])
  }

  /** Two double stars at `i` and `j` that do not overlap. */
  predicate TwoDoubleStars(pattern: string, i: nat, j: nat) {
    i + 2 <= j && DoubleStarAt(pattern, i) && DoubleStarAt(pattern, j)
  }

  lemma {:induction false} SomeDoubleStar(pattern: string)
    ensures DoubleStars(pattern) >= 1 <==> exists i: nat :: DoubleStarAt(pattern, i)
  {
    if |pattern| >= 2 {
      if DoubleStarAt(pattern, 0) {
      } else {
        SomeDoubleStar(pattern[1..]);
        assert forall i: nat :: DoubleStarAt(pattern[1..], i) <==> DoubleStarAt(pattern, i + 1);
        if exists i: nat :: DoubleStarAt(pattern, i) {
          var i: nat :| DoubleStarAt(pattern, i);
          assert DoubleStarAt(pattern[1..], i - 1);
        }
      }
    }
  }

  /** A pattern is ambiguous when it holds two separate double stars. */
  lemma {:induction false} AmbiguousIff(pattern: string)
    ensures DoubleStars(pattern) > 1 <==> exists i: nat, j: nat :: TwoDoubleStars(pattern, i, j)
  {
    if |pattern| >= 2 {
      if DoubleStarAt(pattern, 0) {
        SomeDoubleStar(pattern[2..]);
        if DoubleStars(pattern) > 1 {
          var j: nat :| DoubleStarAt(pattern[2..], j);
          assert TwoDoubleStars(pattern, 0, j + 2);
        }
        if exists i: nat, j: nat :: TwoDoubleStars(pattern, i, j) {
          var i: nat, j: nat :| TwoDoubleStars(pattern, i, j);
          assert DoubleStarAt(pattern[2..], j - 2);
        }
      } else {
        AmbiguousIff(pattern[1..]);
        if exists i: nat, j: nat :: TwoDoubleStars(pattern[1..], i, j) {
          var i: nat, j: nat :| TwoDoubleStars(pattern[1..], i, j);
          assert TwoDoubleStars(pattern, i + 1, j + 1);
        }
        if exists i: nat, j: nat :: TwoDoubleStars(pattern, i, j) {
          var i: nat, j: nat :| TwoDoubleStars(pattern, i, j);
          assert TwoDoubleStars(pattern[1..], i - 1, j - 1);
        }
      }
    }
  }

  /** What a policy must have to be stored. */
  predicate Acceptable(p: Policy) {
    && p.name != ""
    && (p.effect == ALLOW || p.effect == DENY)
    && p.resources != []
    && (p.capabilities != [] || p.actions != [])
    && forall r :: r in p.resources ==> DoubleStars(r) <= 1
  }

  lemma SortedLists(policies: Policies, list: seq<Policy>)
    requires Lists(policies, list)
    ensures Lists(policies, SortByName(list)) && Ordered(SortByName(list))
  {
    hide SortByName, Ordered;
    SortedDistinct(list);
    SortByNameOrdered(list);
    assert forall p :: p in SortByName(list) <==> p in multiset(SortByName(list));
    assert forall p :: p in list <==> p in multiset(list);
  }

  class PolicyRepository {
    var policies: Policies

    ghost predicate Valid()
      reads this
    {
      ByName(policies)
    }

    constructor ()
      ensures Valid() && policies == map[]
    {
      policies := map[];
    }

    method Save(policy: Policy) returns (ok: bool)
      requires Valid()
      modifies this
      ensures Valid() && ok == Acceptable(policy)
      ensures ok <==> policy.name != "" && (policy.effect == "allow" || policy.effect == "deny")
                      && |policy.resources| > 0 && |policy.capabilities| + |policy.actions| > 0
                      && forall r, i: nat, j: nat :: r in policy.resources ==> !TwoDoubleStars(r, i, j)
      ensures policies == if ok then old(policies)[policy.name := policy] else old(policies)
    {
      forall r ensures DoubleStars(r) > 1 <==> exists i: nat, j: nat :: TwoDoubleStars(r, i, j) {
        AmbiguousIff(r);
      }
      hide TwoDoubleStars, DoubleStars;
      if !Acceptable(policy) {
        return false;
      }
      policies := policies[policy.name := policy];
      return true;
    }

    method Delete(name: string) returns (found: bool)
      requires Valid()
      modifies this
      ensures Valid() && policies == old(policies) - {name}
      ensures found <==> name in old(policies)
    {
      found := name in policies;
      policies := policies - {name};
    }

    method List() returns (list: seq<Policy>)
      requires Valid()
      ensures Lists(policies, list) && Ordered(list) && Alphabetical(list)
    {
      hide SortByName, Ordered, Alphabetical;
      list := [];
      var left := policies.Keys;
      while left != {}
        invariant left <= policies.Keys && DistinctNames(list)
        invariant forall p :: p in list <==> p.name in policies && p.name !in left && policies[p.name] == p
        decreases |left|
      {
        var x :| x in left;
        assert forall p :: p in list ==> p.name != x;
        list := list + [policies[x]];
        left := left - {x};
      }
      SortedLists(policies, list);
      list := SortByName(list);
      OrderedIsAlphabetical(list);
    }
  }

  /** Wraps values as the pointers a repository returns, none of which is nil. */
  function Pointers(list: seq<Policy>): (r: seq<Option<Policy>>)
    ensures Present(r) == list
  {
    if list == [] then []
    else
      var n := |list| - 1;
      var front := Pointers(list[..n]);
      assert (front + [Some(list[n])])[..|front|] == front;
      front + [Some(list[n])]
  }

  class PolicyService {
    const digest: Digest
    const repo: PolicyRepository
    const rbac: RBAC
    var policyHash: string
    ghost var loaded: seq<Policy>

    /** A remembered hash belongs to the list the cache was loaded from. */
    ghost predicate Valid()
      reads this, repo, rbac
    {
      && repo.Valid() && (repo as object != rbac) && (repo as object != this) && (rbac as object != this)
      && (policyHash != "" ==>
            && loaded != [] && DistinctNames(loaded)
            && policyHash == HashPolicies(digest, loaded) && rbac.policies == Loaded(loaded))
    }

    constructor (digest: Digest, repo: PolicyRepository, rbac: RBAC)
      requires repo.Valid() && (repo as object != rbac)
      ensures this.digest == digest && this.repo == repo && this.rbac == rbac
      ensures Valid() && policyHash == ""
    {
      this.digest, this.repo, this.rbac := digest, repo, rbac;
      policyHash, loaded := "", [];
    }

    method SavePolicy(policy: Policy) returns (ok: bool)
      requires Valid()
      modifies this, repo, rbac
      ensures Valid() && ok == Acceptable(policy)
      ensures ok ==> repo.policies == old(repo.policies)[policy.name := policy]
                     && rbac.policies == old(rbac.policies)[policy.name := policy] && policyHash == ""
      ensures !ok ==> repo.policies == old(repo.policies) && rbac.policies == old(rbac.policies)
                      && policyHash == old(policyHash)
    {
      ok := repo.Save(policy);
      if ok {
        rbac.UpsertPolicy(policy);
        policyHash := "";
      }
    }

    method DeletePolicy(name: string) returns (found: bool)
      requires Valid()
      modifies this, repo, rbac
      ensures Valid() && repo.policies == old(repo.policies) - {name}
      ensures found <==> name in old(repo.policies)
      ensures found ==> rbac.policies == old(rbac.policies) - {name} && policyHash == ""
      ensures !found ==> rbac.policies == old(rbac.policies) && policyHash == old(policyHash)
    {
      found := repo.Delete(name);
      if found {
        rbac.DeletePolicy(name);
        policyHash := "";
      }
    }

    /** The reload at start-up and after a restore: no guard. */
    method LoadIntoRBAC(available: bool) returns (ok: bool, list: seq<Policy>)
      requires Valid()
      modifies this, rbac
      ensures Valid() && ok == available
      ensures ok ==> Lists(repo.policies, list) && rbac.policies == Loaded(list)
                     && policyHash == HashPolicies(digest, list)
      ensures ok ==> Mirrors(rbac.policies, repo.policies)
      ensures !ok ==> rbac.policies == old(rbac.policies) && policyHash == old(policyHash)
    {
      hide SortByName, Overlay, HashPolicies, Mirrors, Replaces;
      HashOfNothing(digest);
      if !available {
        return false, [];
      }
      list := repo.List();
      LoadedMirrors(repo.policies, list);
      rbac.ReloadFromPersisted(Pointers(list));
      policyHash, loaded := HashPolicies(digest, list), list;
      return true, list;
    }

    /** `available` is false when the repository cannot be read; nothing changes then. */
    method SyncRBAC(available: bool) returns (ok: bool, list: seq<Policy>)
      requires Valid()
      requires forall l :: Lists(repo.policies, l) ==> NoCollision(digest, l, loaded)
      modifies this, rbac
      ensures Valid() && ok == available
      ensures ok ==> Lists(repo.policies, list) && rbac.policies == Loaded(list)
                     && policyHash == HashPolicies(digest, list)
      ensures ok ==> Mirrors(rbac.policies, repo.policies)
      ensures !ok ==> rbac.policies == old(rbac.policies) && policyHash == old(policyHash)
    {
      hide SortByName, Overlay, NoCollision, HashPolicies, Mirrors, Replaces;
      HashOfNothing(digest);
      if !available {
        return false, [];
      }
      list := repo.List();
      LoadedMirrors(repo.policies, list);
      var hash := HashPolicies(digest, list);
      if hash == policyHash && policyHash != "" {
        SameHashSameCache(digest, list, loaded);
        return true, list;
      }
      rbac.ReloadFromPersisted(Pointers(list));
      policyHash, loaded := hash, list;
      return true, list;
    }
  }
}
