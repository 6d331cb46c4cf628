/**
 Policies by name, the include closure of a list of names, the verdict with deny
 precedence, and delegation of a subset of one's policies.

 Whether one policy covers one request (resource, action and conditions) is a
 parameter `covers`, fixed for the request; everything here is about which
 policies are consulted and how their answers combine.
 */
module Rbac {
  import opened Outcomes

  datatype Policy = Policy(
    name: string, effect: string, resources: seq<string>, actions: seq<string>,
    capabilities: seq<string>, includes: seq<string>, conditions: string)

  type Policies = map<string, Policy>

  const ALLOW := "allow"
  const DENY := "deny"

  function BuiltIn(name: string, resources: seq<string>, action: string): Policy {
    Policy(name, ALLOW, resources, [action], [], [], "")
  }

  const DEFAULTS: seq<Policy> := [
    BuiltIn("admin", ["*"], "*"),
    BuiltIn("pki-admin", ["pki/*"], "*"),
    BuiltIn("secrets-admin", ["secrets/*"], "*"),
    BuiltIn("secrets-reader", ["secrets/*"], "read"),
    BuiltIn("audit-reader", ["audit/*"], "read"),
    BuiltIn("policy-admin", ["sys/policies", "sys/roles"], "*"),
    BuiltIn("inject-reader", ["inject/*"], "read"),
    BuiltIn("agent-delegator", ["auth/agent/*"], "write")
  ]

  // -------------------------------------------------------------- reachability

  ghost predicate Includes(policies: Policies, x: string, y: string) {
    x in policies && y in policies[x].includes
  }

  ghost predicate IncludePath(policies: Policies, path: seq<string>) {
    |path| > 0 && forall i :: 0 < i < |path| ==> Includes(policies, path[i - 1], path[i])
  }

  /** `x` is one of `names` or is included, through any number of steps, by one of them. */
  ghost predicate Reaches(policies: Policies, names: seq<string>, x: string) {
    exists path :: IncludePath(policies, path) && path[0] in names && path[|path| - 1] == x
  }

  lemma ReachesName(policies: Policies, names: seq<string>, x: string)
    requires x in names
    ensures Reaches(policies, names, x)
  {
    assert IncludePath(policies, [x]);
  }

  lemma ReachesInclude(policies: Policies, names: seq<string>, x: string, y: string)
    requires Reaches(policies, names, x) && Includes(policies, x, y)
    ensures Reaches(policies, names, y)
  {
    var path :| IncludePath(policies, path) && path[0] in names && path[|path| - 1] == x;
    var longer := path + [y];
    assert IncludePath(policies, longer) && longer[0] in names && longer[|longer| - 1] == y;
  }

  /** A set that holds the names and is closed under includes holds everything they reach. */
  lemma {:induction false} ClosedHoldsPath(policies: Policies, closed: set<string>, path: seq<string>, i: nat)
    requires IncludePath(policies, path) && path[0] in closed && i < |path|
    requires forall x, y :: x in closed && Includes(policies, x, y) ==> y in closed
    ensures path[i] in closed
  {
    if i > 0 {
      ClosedHoldsPath(policies, closed, path, i - 1);
      assert Includes(policies, path[i - 1], path[i]);
    }
  }

  lemma ClosedHoldsAll(policies: Policies, names: seq<string>, closed: set<string>, x: string)
    requires forall n :: n in names ==> n in closed
    requires forall x, y :: x in closed && Includes(policies, x, y) ==> y in closed
    requires Reaches(policies, names, x)
    ensures x in closed
  {
    var path :| IncludePath(policies, path) && path[0] in names && path[|path| - 1] == x;
    ClosedHoldsPath(policies, closed, path, |path| - 1);
  }

  /** Reachability from a list is reachability from one of its names. */
  lemma ReachesFromOne(policies: Policies, names: seq<string>, x: string)
    ensures Reaches(policies, names, x) <==> exists n :: n in names && Reaches(policies, [n], x)
  {
    if Reaches(policies, names, x) {
      var path :| IncludePath(policies, path) && path[0] in names && path[|path| - 1] == x;
      assert path[0] in [path[0]];
      assert Reaches(policies, [path[0]], x);
    }
    if exists n :: n in names && Reaches(policies, [n], x) {
      var n :| n in names && Reaches(policies, [n], x);
      var path :| IncludePath(policies, path) && path[0] in [n] && path[|path| - 1] == x;
      assert path[0] == n;
    }
  }

  // -------------------------------------------------------------------- verdict

  ghost predicate AllowedBy(policies: Policies, covers: Policy -> bool, x: string) {
    x in policies && covers(policies[x]) && policies[x].effect != DENY
  }

  ghost predicate DeniedBy(policies: Policies, covers: Policy -> bool, x: string) {
    x in policies && covers(policies[x]) && policies[x].effect == DENY
  }

  /** Some reachable policy allows and no reachable policy denies. */
  ghost predicate Permitted(policies: Policies, names: seq<string>, covers: Policy -> bool) {
    && (exists x :: Reaches(policies, names, x) && AllowedBy(policies, covers, x))
    && (forall x :: Reaches(policies, names, x) ==> !DeniedBy(policies, covers, x))
  }

  ghost predicate FirstDeny(policies: Policies, covers: Policy -> bool, names: seq<string>, i: nat) {
    && i < |names|
    && DeniedBy(policies, covers, names[i])
    && forall k :: 0 <= k < i ==> !DeniedBy(policies, covers, names[k])
  }

  ghost predicate LastAllow(policies: Policies, covers: Policy -> bool, names: seq<string>, i: nat) {
    && i < |names|
    && AllowedBy(policies, covers, names[i])
    && forall k :: i < k < |names| ==> !AllowedBy(policies, covers, names[k])
  }

  datatype AuthzResult = AuthzResult(allowed: bool, matchedPolicy: string, deniedBy: string)

  ghost predicate Distinct(s: seq<string>) {
    forall i, j :: 0 <= i < j < |s| ==> s[i] != s[j]
  }

  class RBAC {
    var policies: Policies

    constructor ()
      ensures policies == Overlay(map[], DEFAULTS) && HoldsDefaults(policies)
    {
      DefaultsHold();
      hide Overlay;
      policies := Overlay(map[], DEFAULTS);
    }

    method UpsertPolicy(policy: Policy)
      modifies this
      ensures policies == old(policies)[policy.name := policy]
    {
      policies := policies[policy.name := policy];
    }

    method DeletePolicy(name: string)
      modifies this
      ensures policies == old(policies) - {name}
    {
      policies := policies - {name};
    }

    /** Built-in defaults first, then every persisted policy that is there. */
    method ReloadFromPersisted(persisted: seq<Option<Policy>>)
      modifies this
      ensures policies == Overlay(Overlay(map[], DEFAULTS), Present(persisted))
      ensures Replaces(Overlay(map[], DEFAULTS), persisted, policies)
    {
      OverlayReplaces(Overlay(map[], DEFAULTS), persisted);
      hide Replaces, Overlay, HoldsDefaults;
      NothingOverlaid(Overlay(map[], DEFAULTS));
      var clean := new RBAC();
      for i := 0 to |persisted|
        invariant clean.policies == Overlay(Overlay(map[], DEFAULTS), Present(persisted[..i]))
        invariant clean != this && policies == old(policies)
      {
        assert persisted[..i + 1][..i] == persisted[..i];
        ghost var earlier := Present(persisted[..i]);
        if persisted[i].Some? {
          OverlayAppend(Overlay(map[], DEFAULTS), earlier, persisted[i].value);
          clean.UpsertPolicy(persisted[i].value);
        } else {
          assert Present(persisted[..i + 1]) == earlier + [] == earlier;
        }
      }
      assert persisted[..|persisted|] == persisted;
      policies := clean.policies;
    }

    /** The recursive walk over a batch of names, with what was seen and emitted so far. */
    method Walk(batch: seq<string>, seen0: set<string>, out0: seq<string>, ghost roots: seq<string>)
      returns (seen: set<string>, out: seq<string>)
      requires forall x :: x in batch ==> Reaches(policies, roots, x)
      requires forall x :: x in seen0 ==> Reaches(policies, roots, x)
      requires Distinct(out0) && forall x :: x in out0 ==> x in seen0
      ensures seen0 <= seen && forall x :: x in batch ==> x in seen
      ensures forall x :: x in seen ==> Reaches(policies, roots, x)
      ensures forall x, y :: x in seen && x !in seen0 && Includes(policies, x, y) ==> y in seen
      ensures Distinct(out) && forall x :: x in out <==> x in out0 || (x in seen && x !in seen0)
      decreases policies.Keys - seen0
    {
      hide Reaches;
      seen, out := seen0, out0;
      for i := 0 to |batch|
        invariant seen0 <= seen && forall k :: 0 <= k < i ==> batch[k] in seen
        invariant forall x :: x in seen ==> Reaches(policies, roots, x)
        invariant forall x, y :: x in seen && x !in seen0 && Includes(policies, x, y) ==> y in seen
        invariant Distinct(out) && forall x :: x in out <==> x in out0 || (x in seen && x !in seen0)
      {
        var name := batch[i];
        if name in seen {
          continue;
        }
        if name !in policies {
          seen := seen + {name};
          out := out + [name];
          continue;
        }
        ghost var before := seen;
        seen := seen + {name};
        var includes := policies[name].includes;
        if |includes| > 0 {
          forall y | y in includes ensures Reaches(policies, roots, y) {
            assert Includes(policies, name, y);
            ReachesInclude(policies, roots, name, y);
          }
          seen, out := Walk(includes, seen, out, roots);
        }
        out := out + [name];
      }
    }

    /** Every name reachable from the input, each exactly once; cycles do not matter. */
    method ResolvePolicyNames(names: seq<string>) returns (out: seq<string>)
      ensures Distinct(out)
      ensures forall x :: x in out <==> Reaches(policies, names, x)
    {
      forall x | x in names ensures Reaches(policies, names, x) {
        ReachesName(policies, names, x);
      }
      var seen;
      seen, out := Walk(names, {}, [], names);
      forall x | Reaches(policies, names, x) ensures x in out {
        ClosedHoldsAll(policies, names, seen, x);
      }
    }

    /** The first deny ends the walk; otherwise the last allow is reported. */
    method AuthorizeDetailed(names: seq<string>, covers: Policy -> bool) returns (r: AuthzResult)
      ensures r.allowed <==>
              (exists x :: x in names && AllowedBy(policies, covers, x))
              && (forall x :: x in names ==> !DeniedBy(policies, covers, x))
      ensures (forall x :: x in names ==> !DeniedBy(policies, covers, x)) ==> r.deniedBy == ""
      ensures r.allowed ==>
                exists i: nat :: LastAllow(policies, covers, names, i)
                                 && r.matchedPolicy == policies[names[i]].name
      ensures (exists x :: x in names && DeniedBy(policies, covers, x)) ==>
                exists i: nat :: FirstDeny(policies, covers, names, i)
                                 && r.deniedBy == r.matchedPolicy == policies[names[i]].name
      ensures !r.allowed && (forall x :: x in names ==> !DeniedBy(policies, covers, x)) ==> r.matchedPolicy == ""
    {
      var allowed, matchedAllow := false, "";
      ghost var last := 0;
      for i := 0 to |names|
        invariant forall k :: 0 <= k < i ==> !DeniedBy(policies, covers, names[k])
        invariant !allowed ==> forall k :: 0 <= k < i ==> !AllowedBy(policies, covers, names[k])
        invariant allowed ==> last < i && AllowedBy(policies, covers, names[last])
                              && matchedAllow == policies[names[last]].name
        invariant allowed ==> forall k :: last < k < i ==> !AllowedBy(policies, covers, names[k])
      {
        var name := names[i];
        if name !in policies {
          continue;
        }
        var policy := policies[name];
        if !covers(policy) {
          continue;
        }
        if policy.effect == DENY {
          assert FirstDeny(policies, covers, names, i);
          return AuthzResult(false, policy.name, policy.name);
        }
        assert AllowedBy(policies, covers, name);
        allowed, last := true, i;
        matchedAllow := policy.name;
      }
      if !allowed {
        return AuthzResult(false, "", "");
      }
      assert LastAllow(policies, covers, names, last);
      return AuthzResult(true, matchedAllow, "");
    }

    method Authorize(names: seq<string>, covers: Policy -> bool) returns (allowed: bool)
      ensures allowed <==> Permitted(policies, names, covers)
    {
      hide Reaches;
      var resolved := ResolvePolicyNames(names);
      var r := AuthorizeDetailed(resolved, covers);
      allowed := r.allowed;
    }

    /** Accepts exactly when everything the request reaches is reached by the parent's policies. */
    method ValidateDelegatedPolicies(parentPolicies: seq<string>, requested: seq<string>) returns (ok: bool)
      ensures ok <==> WithinScope(policies, parentPolicies, requested)
    {
      hide Reaches;
      var parentSet: set<string> := {};
      var resolvedParent := ResolvePolicyNames(parentPolicies);
      for i := 0 to |resolvedParent|
        invariant forall x :: x in parentSet <==> x in resolvedParent[..i]
      {
        parentSet := parentSet + {resolvedParent[i]};
      }
      for i := 0 to |requested|
        invariant forall k, x :: 0 <= k < i && Reaches(policies, [requested[k]], x) ==> x in parentSet
      {
        var resolved := ResolvePolicyNames([requested[i]]);
        for j := 0 to |resolved|
          invariant forall k :: 0 <= k < j ==> resolved[k] in parentSet
        {
          if resolved[j] !in parentSet {
            assert Reaches(policies, [requested[i]], resolved[j]);
            ReachesFromOne(policies, requested, resolved[j]);
            return false;
          }
        }
      }
      forall x | Reaches(policies, requested, x) ensures Reaches(policies, parentPolicies, x) {
        ReachesFromOne(policies, requested, x);
        var n :| n in requested && Reaches(policies, [n], x);
        var k :| 0 <= k < |requested| && requested[k] == n;
        assert x in parentSet;
      }
      return true;
    }
  }

  function Present(persisted: seq<Option<Policy>>): seq<Policy> {
    if persisted == [] then []
    else
      var last := persisted[|persisted| - 1];
      Present(persisted[..|persisted| - 1]) + if last.Some? then [last.value] else []
  }

  /** Policies added to a map by name, later ones replacing earlier ones. */
  function Overlay(base: Policies, list: seq<Policy>): Policies {
    if list == [] then base
    else
      var last := list[|list| - 1];
      Overlay(base, list[..|list| - 1])[last.name := last]
  }

  lemma NothingOverlaid(base: Policies)
    ensures Overlay(base, []) == base
  {
  }

  lemma OverlayAppend(base: Policies, list: seq<Policy>, p: Policy)
    ensures Overlay(base, list + [p]) == Overlay(base, list)[p.name := p]
  {
    assert (list + [p])[..|list|] == list;
  }

  ghost predicate DistinctNames(list: seq<Policy>) {
    forall i, j :: 0 <= i < j < |list| ==> list[i].name != list[j].name
  }

  lemma {:induction false} OverlayLookup(base: Policies, list: seq<Policy>, x: string)
    requires DistinctNames(list)
    ensures forall p :: p in list && p.name == x ==> x in Overlay(base, list) && Overlay(base, list)[x] == p
    ensures (forall p :: p in list ==> p.name != x) ==>
              (x in Overlay(base, list) <==> x in base) && (x in base ==> Overlay(base, list)[x] == base[x])
  {
    if list != [] {
      var n := |list| - 1;
      OverlayLookup(base, list[..n], x);
      assert list == list[..n] + [list[n]];
    }
  }

  /** The policy at position `i` is there and no later one has its name. */
  ghost predicate LastOfItsName(persisted: seq<Option<Policy>>, i: nat) {
    && i < |persisted| && persisted[i].Some?
    && forall j :: i < j < |persisted| && persisted[j].Some? ==> persisted[j].value.name != persisted[i].value.name
  }

  /** The last policy of each name listed, and what `base` has under the other names. */
  ghost predicate Replaces(base: Policies, persisted: seq<Option<Policy>>, result: Policies) {
    && (forall i: nat :: LastOfItsName(persisted, i) ==>
          persisted[i].value.name in result && result[persisted[i].value.name] == persisted[i].value)
    && (forall x :: x in result && (x !in base || result[x] != base[x]) ==>
          exists i: nat :: LastOfItsName(persisted, i) && persisted[i].value.name == x)
    && base.Keys <= result.Keys
  }

  lemma {:induction false} OverlayReplaces(base: Policies, persisted: seq<Option<Policy>>)
    ensures Replaces(base, persisted, Overlay(base, Present(persisted)))
  {
    if persisted != [] {
      var n := |persisted| - 1;
      OverlayReplaces(base, persisted[..n]);
      var before, result := Overlay(base, Present(persisted[..n])), Overlay(base, Present(persisted));
      if persisted[n].Some? {
        OverlayAppend(base, Present(persisted[..n]), persisted[n].value);
        assert LastOfItsName(persisted, n);
      } else {
        assert Present(persisted) == Present(persisted[..n]) + [] == Present(persisted[..n]);
      }
      ReplacesNext(base, persisted, before, result);
    }
  }

  lemma ReplacesNext(base: Policies, persisted: seq<Option<Policy>>, before: Policies, result: Policies)
    requires persisted != [] && Replaces(base, persisted[..|persisted| - 1], before)
    requires var last := persisted[|persisted| - 1];
             result == if last.Some? then before[last.value.name := last.value] else before
    ensures Replaces(base, persisted, result)
  {
    var n := |persisted| - 1;
    var front := persisted[..n];
    forall i: nat | i < n
      ensures LastOfItsName(persisted, i) <==>
              LastOfItsName(front, i) && (persisted[n].Some? ==> persisted[n].value.name != persisted[i].value.name)
    {
      assert forall j :: 0 <= j < n ==> front[j] == persisted[j];
    }
    assert persisted[n].Some? ==> LastOfItsName(persisted, n);
    forall x | x in result && (x !in base || result[x] != base[x])
      ensures exists i: nat :: LastOfItsName(persisted, i) && persisted[i].value.name == x
    {
      if !(persisted[n].Some? && persisted[n].value.name == x) {
        var i: nat :| LastOfItsName(front, i) && front[i].value.name == x;
        assert LastOfItsName(persisted, i);
      }
    }
  }

  /** Every built-in policy under its name, and nothing else. */
  ghost predicate HoldsDefaults(policies: Policies) {
    && (forall d :: d in DEFAULTS ==> d.name in policies && policies[d.name] == d)
    && forall x :: x in policies ==> policies[x] in DEFAULTS && policies[x].name == x
  }

  lemma DefaultsDistinct()
    ensures DistinctNames(DEFAULTS)
  {
    var d := DEFAULTS;
    assert d[0].name[0] == 'a' && d[1].name[1] == 'k' && d[2].name[8] == 'a' && d[3].name[8] == 'r';
    assert d[4].name[1] == 'u' && d[5].name[1] == 'o' && d[6].name[0] == 'i' && d[7].name[1] == 'g';
  }

  lemma DefaultsHold()
    ensures HoldsDefaults(Overlay(map[], DEFAULTS))
  {
    hide Overlay;
    DefaultsDistinct();
    forall x
      ensures forall d :: d in DEFAULTS && d.name == x ==>
                            x in Overlay(map[], DEFAULTS) && Overlay(map[], DEFAULTS)[x] == d
      ensures x in Overlay(map[], DEFAULTS) ==> exists d :: d in DEFAULTS && d.name == x
    {
      OverlayLookup(map[], DEFAULTS, x);
    }
  }

  // --------------------------------------------------------------- main results

  /** The verdict depends on the set of names only, not on their order or repetition. */
  lemma VerdictIgnoresOrder(policies: Policies, names: seq<string>, names': seq<string>, covers: Policy -> bool)
    requires forall n :: n in names <==> n in names'
    ensures Permitted(policies, names, covers) <==> Permitted(policies, names', covers)
  {
    forall x ensures Reaches(policies, names, x) <==> Reaches(policies, names', x) {
      ReachesFromOne(policies, names, x);
      ReachesFromOne(policies, names', x);
    }
  }

  ghost predicate WithinScope(policies: Policies, parent: seq<string>, requested: seq<string>) {
    forall x :: Reaches(policies, requested, x) ==> Reaches(policies, parent, x)
  }

  /**
   What an accepted delegate may do, some policy of the parent allows; only an explicit deny can refuse the
   parent.
   */
  lemma DelegateWithinParent(policies: Policies, parent: seq<string>, requested: seq<string>, covers: Policy -> bool)
    requires WithinScope(policies, parent, requested) && Permitted(policies, requested, covers)
    ensures exists x :: Reaches(policies, parent, x) && AllowedBy(policies, covers, x)
    ensures Permitted(policies, parent, covers) <==>
            forall x :: Reaches(policies, parent, x) ==> !DeniedBy(policies, covers, x)
  {
    hide Reaches;
  }

  /** The names reached that stand for policies of one effect. */
  ghost predicate ReachesAllow(policies: Policies, names: seq<string>, x: string) {
    Reaches(policies, names, x) && x in policies && policies[x].effect != DENY
  }

  ghost predicate ReachesDeny(policies: Policies, names: seq<string>, x: string) {
    Reaches(policies, names, x) && x in policies && policies[x].effect == DENY
  }

  /**
   An accepted delegation never gives more than the parent has, whatever the requests, exactly when the
   requested policies allow nothing at all or reach every deny policy that the parent reaches.
   */
  lemma DelegateNeverExceedsIff(policies: Policies, parent: seq<string>, requested: seq<string>)
    requires (forall x :: x in policies ==> policies[x].name == x) && WithinScope(policies, parent, requested)
    ensures (forall covers: Policy -> bool ::
               Permitted(policies, requested, covers) ==> Permitted(policies, parent, covers))
            <==>
            || (forall a :: !ReachesAllow(policies, requested, a))
            || (forall x :: ReachesDeny(policies, parent, x) ==> ReachesDeny(policies, requested, x))
  {
    hide Reaches;
    forall covers: Policy -> bool |
      (forall x :: ReachesDeny(policies, parent, x) ==> ReachesDeny(policies, requested, x))
      && Permitted(policies, requested, covers)
      ensures Permitted(policies, parent, covers)
    {
      KeptDeniesProtect(policies, parent, requested, covers);
    }
    forall a, x | ReachesAllow(policies, requested, a) && ReachesDeny(policies, parent, x)
                  && !ReachesDeny(policies, requested, x)
      ensures exists covers: Policy -> bool ::
                Permitted(policies, requested, covers) && !Permitted(policies, parent, covers)
    {
      var _ := EscapedDeny(policies, parent, requested, a, x);
    }
    forall covers: Policy -> bool
      ensures Permitted(policies, requested, covers) ==> exists a :: ReachesAllow(policies, requested, a)
    {
      AllowNeedsAllow(policies, requested, covers);
    }
  }

  lemma AllowNeedsAllow(policies: Policies, names: seq<string>, covers: Policy -> bool)
    ensures Permitted(policies, names, covers) ==> exists a :: ReachesAllow(policies, names, a)
  {
    hide Reaches;
    if Permitted(policies, names, covers) {
      var a :| Reaches(policies, names, a) && AllowedBy(policies, covers, a);
      assert ReachesAllow(policies, names, a);
    }
  }

  lemma KeptDeniesProtect(policies: Policies, parent: seq<string>, requested: seq<string>, covers: Policy -> bool)
    requires WithinScope(policies, parent, requested) && Permitted(policies, requested, covers)
    requires forall x :: ReachesDeny(policies, parent, x) ==> ReachesDeny(policies, requested, x)
    ensures Permitted(policies, parent, covers)
  {
    hide Reaches;
    forall x | Reaches(policies, parent, x) ensures !DeniedBy(policies, covers, x) {
      assert ReachesDeny(policies, parent, x) ==> ReachesDeny(policies, requested, x);
    }
  }

  /** A request covered by an allow policy of the delegate and by a deny policy left out. */
  lemma EscapedDeny(policies: Policies, parent: seq<string>, requested: seq<string>, a: string, x: string)
    returns (covers: Policy -> bool)
    requires forall x :: x in policies ==> policies[x].name == x
    requires ReachesAllow(policies, requested, a)
    requires ReachesDeny(policies, parent, x) && !ReachesDeny(policies, requested, x)
    ensures Permitted(policies, requested, covers) && !Permitted(policies, parent, covers)
  {
    hide Reaches;
    covers := (p: Policy) => p.name == a || p.name == x;
    assert AllowedBy(policies, covers, a);
    assert DeniedBy(policies, covers, x);
    forall y | Reaches(policies, requested, y) ensures !DeniedBy(policies, covers, y) {
      assert y in policies ==> policies[y].name == y;
      assert !ReachesDeny(policies, requested, x);
    }
  }

  /** Such a deny exists in some configurations: the delegate is then allowed what the parent is refused. */
  lemma DelegateMayEscapeDeny()
    ensures WithinScope(EXAMPLE, ["reader", "freeze"], ["reader"])
    ensures Permitted(EXAMPLE, ["reader"], Anything)
    ensures !Permitted(EXAMPLE, ["reader", "freeze"], Anything)
  {
    hide Reaches;
    ReachesName(EXAMPLE, ["reader", "freeze"], "freeze");
    ReachesName(EXAMPLE, ["reader", "freeze"], "reader");
    ReachesName(EXAMPLE, ["reader"], "reader");
    forall x | Reaches(EXAMPLE, ["reader"], x) ensures x == "reader" {
      ClosedHoldsAll(EXAMPLE, ["reader"], {"reader"}, x);
    }
    assert AllowedBy(EXAMPLE, Anything, "reader") && DeniedBy(EXAMPLE, Anything, "freeze");
  }

  const EXAMPLE: Policies := map[
    "reader" := Policy("reader", ALLOW, ["kv"], ["read"], [], [], ""),
    "freeze" := Policy("freeze", DENY, ["kv"], ["read"], [], [], "")]

  predicate Anything(p: Policy) {
    true
  }
}
