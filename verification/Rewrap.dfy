/**
 The background job that re-wraps stored DEKs under the active master key: first
 certificate authorities, then secret versions, sharing one limit per call.
 */
module Rewrap {
  import opened Outcomes
  import opened KeyRing
  import opened Numbers

  const DEFAULT_LIMIT := 100

  /** The blobs of a repository that are not in the active format. */
  ghost function Stale<Id>(a: Aead, r: Ring, rows: map<Id, Bytes>): set<Id> {
    set id | id in rows && NeedsRewrap(a, r, rows[id])
  }

  /** A row is as it was, or was stale, is no longer, and still holds the same DEK. */
  ghost predicate RowKept(a: Aead, r: Ring, before: Bytes, after: Bytes) {
    after == before
    || (NeedsRewrap(a, r, before) && !NeedsRewrap(a, r, after) && Unwrap(a, r, after) == Unwrap(a, r, before)
        && Unwrap(a, r, before).Ok?)
  }

  ghost predicate Kept<Id(!new)>(a: Aead, r: Ring, rows: map<Id, Bytes>, rows': map<Id, Bytes>) {
    rows'.Keys == rows.Keys && forall id :: id in rows ==> RowKept(a, r, rows[id], rows'[id])
  }

  /** Every stale row can be unwrapped and written back. */
  ghost predicate Serviceable<Id(!new)>(a: Aead, r: Ring, rows: map<Id, Bytes>, refuses: Id -> bool) {
    forall id :: id in rows && NeedsRewrap(a, r, rows[id]) ==> Unwrap(a, r, rows[id]).Ok? && !refuses(id)
  }

  /** Rows wrapped by this ring, when storage takes every write, are serviceable. */
  lemma RingMadeIsServiceable<Id(!new)>(a: Aead, r: Ring, rows: map<Id, Bytes>, refuses: Id -> bool)
    requires a.Lawful() && r.Valid()
    requires forall id :: id in rows ==> exists form, dek :: Wraps(a, r, form, dek, rows[id])
    requires forall id :: !refuses(id)
    ensures Serviceable(a, r, rows, refuses)
  {
    forall id | id in rows ensures Unwrap(a, r, rows[id]).Ok? {
      var form, dek :| Wraps(a, r, form, dek, rows[id]);
      UnwrapWrapped(a, r, form, dek, rows[id]);
    }
  }

  datatype Fault = CannotUnwrap(error: Error) | WriteRefused

  /** A repository of wrapped DEKs; `refuses` stands for the writes storage does not take. */
  class Store<Id(==, !new)> {
    var rows: map<Id, Bytes>
    const refuses: Id -> bool

    constructor (rows: map<Id, Bytes>, refuses: Id -> bool)
      ensures this.rows == rows && this.refuses == refuses
    {
      this.rows := rows;
      this.refuses := refuses;
    }

    method List() returns (ids: seq<Id>)
      ensures forall id :: id in ids <==> id in rows
      ensures forall i, j :: 0 <= i < j < |ids| ==> ids[i] != ids[j]
    {
      ids := [];
      var left := rows.Keys;
      while left != {}
        invariant left <= rows.Keys
        invariant forall id :: id in ids <==> id in rows && id !in left
        invariant forall i, j :: 0 <= i < j < |ids| ==> ids[i] != ids[j]
        decreases |left|
      {
        var id :| id in left;
        ids := ids + [id];
        left := left - {id};
      }
    }

    method Save(id: Id, blob: Bytes) returns (ok: bool)
      requires id in rows
      modifies this
      ensures ok == !refuses(id)
      ensures rows == if ok then old(rows)[id := blob] else old(rows)
    {
      ok := !refuses(id);
      if ok {
        rows := rows[id := blob];
      }
    }
  }

  lemma OneFewer<Id(!new)>(a: Aead, r: Ring, rows: map<Id, Bytes>, id: Id, blob: Bytes)
    requires id in rows && NeedsRewrap(a, r, rows[id]) && !NeedsRewrap(a, r, blob)
    ensures Stale(a, r, rows[id := blob]) == Stale(a, r, rows) - {id}
    ensures |Stale(a, r, rows[id := blob])| == |Stale(a, r, rows)| - 1
  {
    hide NeedsRewrap;
    var rows' := rows[id := blob];
    forall x ensures x in Stale(a, r, rows') <==> x in Stale(a, r, rows) - {id} {
      if x != id && x in rows { assert rows'[x] == rows[x]; }
    }
    assert Stale(a, r, rows') == Stale(a, r, rows) - {id};
    assert id in Stale(a, r, rows);
  }

  class MasterKeyService {
    const ring: Keyring

    constructor (ring: Keyring)
      ensures this.ring == ring
    {
      this.ring := ring;
    }

    /** One of the two loops: re-wraps stale rows until `budget` of them are done. */
    method RewrapStore<Id(==, !new)>(store: Store<Id>, budget: nat, nonce: nat -> Bytes)
      returns (done: nat, fault: Option<Fault>)
      requires ring as object != store
      requires ring.aead.Lawful() && ring.Value().Valid() && forall k :: |nonce(k)| == NONCE_SIZE
      modifies store
      ensures Kept(ring.aead, ring.Value(), old(store.rows), store.rows)
      ensures done == |Stale(ring.aead, ring.Value(), old(store.rows))| - |Stale(ring.aead, ring.Value(), store.rows)|
      ensures done <= budget
      ensures fault.None? ==> done == budget || Stale(ring.aead, ring.Value(), store.rows) == {}
      ensures Serviceable(ring.aead, ring.Value(), old(store.rows), store.refuses) ==> fault.None?
    {
      hide NeedsRewrap, Unwrap, Wraps;
      ghost var a, r, before := ring.aead, ring.Value(), store.rows;
      done := 0;
      var ids := store.List();
      for i := 0 to |ids|
        invariant ring.Value() == r
        invariant Kept(a, r, before, store.rows)
        invariant forall k :: i <= k < |ids| ==> store.rows[ids[k]] == before[ids[k]]
        invariant forall k :: 0 <= k < i ==> !NeedsRewrap(a, r, store.rows[ids[k]])
        invariant done == |Stale(a, r, before)| - |Stale(a, r, store.rows)|
        invariant done <= budget
      {
        if done >= budget {
          return done, None;
        }
        var enc := store.rows[ids[i]];
        var stale := ring.DEKNeedsReencrypt(enc);
        if !stale {
          continue;
        }
        var newEnc := ring.ReencryptDEK(enc, nonce(done));
        if newEnc.Err? {
          return done, Some(CannotUnwrap(newEnc.error));
        }
        OneFewer(a, r, store.rows, ids[i], newEnc.value);
        var saved := store.Save(ids[i], newEnc.value);
        if !saved {
          return done, Some(WriteRefused);
        }
        done := done + 1;
      }
      forall id | id in store.rows ensures !NeedsRewrap(a, r, store.rows[id]) {
        assert id in ids;
      }
      return done, None;
    }

    /** One call of the job. Whatever happens, no DEK changes and no current blob is touched. */
    method ReencryptDEKs<CaId(==, !new), SecretId(==, !new)>(
        cas: Store<CaId>, secrets: Store<SecretId>, limit: int, nonce: nat -> Bytes)
      returns (counts: (nat, nat), fault: Option<Fault>)
      requires ring as object != cas && ring as object != secrets && cas as object != secrets
      requires ring.aead.Lawful() && ring.Value().Valid() && forall k :: |nonce(k)| == NONCE_SIZE
      modifies cas, secrets
      ensures Kept(ring.aead, ring.Value(), old(cas.rows), cas.rows)
      ensures Kept(ring.aead, ring.Value(), old(secrets.rows), secrets.rows)
      ensures (&& Serviceable(ring.aead, ring.Value(), old(cas.rows), cas.refuses)
               && Serviceable(ring.aead, ring.Value(), old(secrets.rows), secrets.refuses)) ==> fault.None?
      ensures fault.None? ==>
                && counts.0 == StaleIn(ring, old(cas.rows)) - StaleIn(ring, cas.rows)
                && counts.1 == StaleIn(ring, old(secrets.rows)) - StaleIn(ring, secrets.rows)
                && counts.0 + counts.1 == Min(BatchSize(limit), StaleIn(ring, old(cas.rows)) + StaleIn(ring,
                                              old(secrets.rows)))
                && counts.0 == Min(BatchSize(limit), StaleIn(ring, old(cas.rows)))
      ensures fault.None? && limit > 0 ==>
                counts.0 + counts.1 == Min(limit, StaleIn(ring, old(cas.rows)) + StaleIn(ring, old(secrets.rows)))
      ensures fault.None? && limit <= 0 ==>
                counts.0 + counts.1 == Min(100, StaleIn(ring, old(cas.rows)) + StaleIn(ring, old(secrets.rows)))
      ensures fault.None? ==>
                Batch(ring.aead, ring.Value(), limit,
                      Stores(old(cas.rows), old(secrets.rows)), Stores(cas.rows, secrets.rows))
    {
      hide NeedsRewrap, Unwrap, Wraps, Kept, Serviceable;
      var lim := limit;
      if lim <= 0 {
        lim := DEFAULT_LIMIT;
      }
      var doneCas, faultCas := RewrapStore(cas, lim, nonce);
      if faultCas.Some? {
        KeptSelf(ring.aead, ring.Value(), secrets.rows);
        return (doneCas, 0), faultCas;
      }
      var doneSecrets, faultSecrets := RewrapStore(secrets, lim - doneCas, k => nonce(k + doneCas));
      return (doneCas, doneSecrets), faultSecrets;
    }
  }

  ghost function StaleIn<Id>(ring: Keyring, rows: map<Id, Bytes>): nat
    reads ring
  {
    |Stale(ring.aead, ring.Value(), rows)|
  }

  function BatchSize(limit: int): nat {
    if limit <= 0 then DEFAULT_LIMIT else limit
  }

  // ------------------------------------------------------------- repeated calls

  datatype Stores<CaId, SecretId> = Stores(cas: map<CaId, Bytes>, secrets: map<SecretId, Bytes>)

  ghost function StaleCount<CaId, SecretId>(a: Aead, r: Ring, s: Stores<CaId, SecretId>): nat {
    |Stale(a, r, s.cas)| + |Stale(a, r, s.secrets)|
  }

  /** What a call without fault does to the two repositories. */
  ghost predicate Batch<CaId(!new), SecretId(!new)>(
    a: Aead, r: Ring, limit: int, s: Stores<CaId, SecretId>, s': Stores<CaId, SecretId>) {
    && Kept(a, r, s.cas, s'.cas) && Kept(a, r, s.secrets, s'.secrets)
    && StaleCount(a, r, s') == StaleCount(a, r, s) - Min(BatchSize(limit), StaleCount(a, r, s))
  }

  lemma KeptTwice<Id(!new)>(a: Aead, r: Ring, m0: map<Id, Bytes>, m1: map<Id, Bytes>, m2: map<Id, Bytes>)
    requires Kept(a, r, m0, m1) && Kept(a, r, m1, m2)
    ensures Kept(a, r, m0, m2)
  {
    hide NeedsRewrap, Unwrap;
    forall id | id in m0 ensures RowKept(a, r, m0[id], m2[id]) {
      assert RowKept(a, r, m0[id], m1[id]) && RowKept(a, r, m1[id], m2[id]);
    }
  }

  /**
   After k calls without rotation in between, exactly stale - k * limit blobs are left, or none; no DEK has
   changed.
   */
  lemma {:induction false} RepeatedBatches<CaId(!new), SecretId(!new)>(
      a: Aead, r: Ring, limit: int, states: seq<Stores<CaId, SecretId>>)
    requires |states| > 0
    requires forall i :: 0 < i < |states| ==> Batch(a, r, limit, states[i - 1], states[i])
    ensures var k := |states| - 1;
            StaleCount(a, r, states[k]) ==
            if k * BatchSize(limit) <= StaleCount(a, r, states[0])
            then StaleCount(a, r, states[0]) - k * BatchSize(limit) else 0
    ensures Kept(a, r, states[0].cas, states[|states| - 1].cas)
    ensures Kept(a, r, states[0].secrets, states[|states| - 1].secrets)
    decreases |states|
  {
    hide NeedsRewrap, Unwrap, Kept, Stale;
    var k := |states| - 1;
    if k == 0 {
      KeptSelf(a, r, states[0].cas);
      KeptSelf(a, r, states[0].secrets);
    } else {
      var front := states[..k];
      forall i | 0 < i < |front| ensures Batch(a, r, limit, front[i - 1], front[i]) {
        assert front[i - 1] == states[i - 1] && front[i] == states[i];
      }
      RepeatedBatches(a, r, limit, front);
      assert Batch(a, r, limit, states[k - 1], states[k]);
      assert front[k - 1] == states[k - 1];
      KeptTwice(a, r, states[0].cas, states[k - 1].cas, states[k].cas);
      KeptTwice(a, r, states[0].secrets, states[k - 1].secrets, states[k].secrets);
      assert k * BatchSize(limit) == (k - 1) * BatchSize(limit) + BatchSize(limit);
    }
  }

  lemma KeptSelf<Id(!new)>(a: Aead, r: Ring, rows: map<Id, Bytes>)
    ensures Kept(a, r, rows, rows)
  {
    hide NeedsRewrap, Unwrap;
  }

  /** Enough calls (the stale count over the limit, rounded up) leave nothing stale, and one fewer does not. */
  lemma Converges<CaId(!new), SecretId(!new)>(
      a: Aead, r: Ring, limit: int, states: seq<Stores<CaId, SecretId>>)
    requires |states| > 0
    requires forall i :: 0 < i < |states| ==> Batch(a, r, limit, states[i - 1], states[i])
    ensures var needed := (StaleCount(a, r, states[0]) + BatchSize(limit) - 1) / BatchSize(limit);
            StaleCount(a, r, states[|states| - 1]) == 0 <==> |states| - 1 >= needed
    ensures limit > 0 ==> (StaleCount(a, r, states[|states| - 1]) == 0 <==>
                           |states| - 1 >= (StaleCount(a, r, states[0]) + limit - 1) / limit)
    ensures limit <= 0 ==> (StaleCount(a, r, states[|states| - 1]) == 0 <==>
                            |states| - 1 >= (StaleCount(a, r, states[0]) + 99) / 100)
  {
    hide NeedsRewrap, Unwrap, Kept, Stale, Batch;
    RepeatedBatches(a, r, limit, states);
    RoundUp(StaleCount(a, r, states[0]), BatchSize(limit), |states| - 1);
  }

  lemma RoundUp(n: nat, b: nat, k: nat)
    requires b > 0
    ensures n <= k * b <==> k >= (n + b - 1) / b
  {
    var q := (n + b - 1) / b;
    assert q * b <= n + b - 1 < q * b + b;
    if k >= q {
      assert k * b >= q * b;
    } else {
      assert (k + 1) * b <= q * b;
    }
  }
}
