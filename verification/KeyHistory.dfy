/**
 Whole lifetimes of one key ring: any sequence of key additions, rotations,
 previous-key loads, changes of the active version, wraps and re-wraps.
 */
module KeyHistory {
  import opened Outcomes
  import opened KeyRing

  datatype Op =
    | AddKey(version: Byte, key: Bytes)
    | SetActive(version: Byte)
    | Rotate(key: Bytes)
    | LoadPrevious(key: Bytes)
    | WrapDek(dek: Bytes, nonce: Bytes)
    | Rewrap(which: nat, nonce: Bytes)

  /** A blob the ring handed out, with the DEK it was asked to protect. */
  datatype Wrapped = Wrapped(dek: Bytes, blob: Bytes)

  datatype World = World(ring: Ring, wrapped: seq<Wrapped>)

  /** Nonces have the size AES-GCM asks for; the random source is outside the model. */
  predicate WellFormed(op: Op) {
    (op.WrapDek? || op.Rewrap?) ==> |op.nonce| == NONCE_SIZE
  }

  function Next(a: Aead, w: World, op: Op): World {
    match op
    case AddKey(version, key) => w.(ring := w.ring.Add(version, key))
    case SetActive(version) => w.(ring := w.ring.Activate(version))
    case Rotate(key) => w.(ring := w.ring.Rotate(key))
    case LoadPrevious(key) => w.(ring := w.ring.LoadPrevious(key))
    case WrapDek(dek, nonce) =>
      if |dek| != DEK_SIZE || w.ring.active !in w.ring.keys then w
      else w.(wrapped := w.wrapped + [Wrapped(dek, Wrap(a, w.ring, dek, nonce))])
    case Rewrap(i, nonce) =>
      if i >= |w.wrapped| || Unwrap(a, w.ring, w.wrapped[i].blob).Err? || w.ring.active !in w.ring.keys then w
      else
        var dek := Unwrap(a, w.ring, w.wrapped[i].blob).value;
        w.(wrapped := w.wrapped + [Wrapped(w.wrapped[i].dek, Wrap(a, w.ring, dek, nonce))])
  }

  function After(a: Aead, w: World, ops: seq<Op>): World {
    if ops == [] then w else Next(a, After(a, w, ops[..|ops| - 1]), ops[|ops| - 1])
  }

  function Start(master: Bytes): World {
    World(NewRing(master), [])
  }

  // ------------------------------------------------------------------ invariant

  ghost predicate Recorded(a: Aead, r: Ring, x: Wrapped) {
    exists form :: Wraps(a, r, form, x.dek, x.blob)
  }

  ghost predicate Inv(a: Aead, w: World) {
    w.ring.Valid() && forall i :: 0 <= i < |w.wrapped| ==> Recorded(a, w.ring, w.wrapped[i])
  }

  lemma RingOps(r: Ring, version: Byte, key: Bytes)
    requires r.Valid()
    ensures var r' := r.Add(version, key); r'.Valid() && Extends(r, r')
    ensures var r' := r.Activate(version); r'.Valid() && Extends(r, r')
    ensures var r' := r.LoadPrevious(key); r'.Valid() && Extends(r, r')
  {
    hide VersionsFrom;
  }

  lemma RecordsSurvive(a: Aead, w: World, r': Ring)
    requires Inv(a, w) && r'.Valid() && Extends(w.ring, r')
    ensures Inv(a, w.(ring := r'))
  {
    forall i | 0 <= i < |w.wrapped| ensures Recorded(a, r', w.wrapped[i]) {
      assert Recorded(a, w.ring, w.wrapped[i]);
      var form :| Wraps(a, w.ring, form, w.wrapped[i].dek, w.wrapped[i].blob);
      WrapsSurvives(a, w.ring, r', form, w.wrapped[i].dek, w.wrapped[i].blob);
    }
  }

  lemma NewRecord(a: Aead, w: World, dek: Bytes, nonce: Bytes)
    requires Inv(a, w) && |dek| == DEK_SIZE && |nonce| == NONCE_SIZE
    ensures Inv(a, w.(wrapped := w.wrapped + [Wrapped(dek, Wrap(a, w.ring, dek, nonce))]))
  {
    WrapWraps(a, w.ring, dek, nonce);
  }

  lemma NextKeeps(a: Aead, w: World, op: Op)
    requires a.Lawful() && Inv(a, w) && WellFormed(op)
    ensures Inv(a, Next(a, w, op)) && Extends(w.ring, Next(a, w, op).ring)
    ensures w.wrapped <= Next(a, w, op).wrapped
  {
    hide VersionsFrom, Wraps;
    match op
    case AddKey(version, key) =>
      RingOps(w.ring, version, key);
      RecordsSurvive(a, w, w.ring.Add(version, key));
    case SetActive(version) =>
      RingOps(w.ring, version, []);
      RecordsSurvive(a, w, w.ring.Activate(version));
    case Rotate(key) =>
      RingOps(w.ring, w.ring.NextVersion(), key);
      RecordsSurvive(a, w, w.ring.Rotate(key));
    case LoadPrevious(key) =>
      RingOps(w.ring, 1, key);
      RecordsSurvive(a, w, w.ring.LoadPrevious(key));
    case WrapDek(dek, nonce) =>
      if |dek| == DEK_SIZE { NewRecord(a, w, dek, nonce); }
    case Rewrap(i, nonce) =>
      if i < |w.wrapped| {
        UnwrapsRecorded(a, w.ring, w.wrapped[i]);
        NewRecord(a, w, w.wrapped[i].dek, nonce);
      }
  }

  lemma UnwrapsRecorded(a: Aead, r: Ring, x: Wrapped)
    requires a.Lawful() && r.Valid() && Recorded(a, r, x)
    ensures Unwrap(a, r, x.blob) == Ok(x.dek) && |x.dek| == DEK_SIZE
  {
    var form :| Wraps(a, r, form, x.dek, x.blob);
    UnwrapWrapped(a, r, form, x.dek, x.blob);
  }

  lemma StartKeeps(a: Aead, master: Bytes)
    requires |master| == KEY_SIZE
    ensures Inv(a, Start(master))
  {
  }

  lemma {:induction false} AfterKeeps(a: Aead, w: World, ops: seq<Op>)
    requires a.Lawful() && Inv(a, w)
    requires forall i :: 0 <= i < |ops| ==> WellFormed(ops[i])
    ensures Inv(a, After(a, w, ops)) && After(a, w, ops).ring.Valid()
    ensures Extends(w.ring, After(a, w, ops).ring)
    ensures w.wrapped <= After(a, w, ops).wrapped
  {
    hide VersionsFrom, Wraps, Next;
    if ops != [] {
      var n := |ops| - 1;
      AfterKeeps(a, w, ops[..n]);
      NextKeeps(a, After(a, w, ops[..n]), ops[n]);
    }
  }

  // --------------------------------------------------------------- main results

  /** Every blob ever handed out still unwraps to the DEK it was made for, however many keys came after it. */
  lemma EveryBlobUnwraps(a: Aead, master: Bytes, ops: seq<Op>, i: nat)
    requires a.Lawful() && |master| == KEY_SIZE
    requires forall k :: 0 <= k < |ops| ==> WellFormed(ops[k])
    requires i < |After(a, Start(master), ops).wrapped|
    ensures var w := After(a, Start(master), ops); Unwrap(a, w.ring, w.wrapped[i].blob) == Ok(w.wrapped[i].dek)
  {
    hide VersionsFrom, Wraps, Next, Unwrap;
    StartKeeps(a, master);
    AfterKeeps(a, Start(master), ops);
    var w := After(a, Start(master), ops);
    UnwrapsRecorded(a, w.ring, w.wrapped[i]);
  }

  /** A payload sealed under a wrapped DEK opens after any later operations on the ring. */
  lemma OpenUndoesSeal(a: Aead, master: Bytes, before: seq<Op>, dek: Bytes, dekNonce: Bytes,
                       plaintext: Bytes, dataNonce: Bytes, later: seq<Op>)
    requires a.Lawful() && |master| == KEY_SIZE && |dek| == DEK_SIZE
    requires |dekNonce| == NONCE_SIZE && |dataNonce| == NONCE_SIZE
    requires forall k :: 0 <= k < |before| ==> WellFormed(before[k])
    requires forall k :: 0 <= k < |later| ==> WellFormed(later[k])
    ensures var first := After(a, Start(master), before);
            first.ring.Valid() &&
            var now := After(a, first, later);
            OpenSealed(a, now.ring, a.seal(dek, dataNonce, plaintext), Wrap(a, first.ring, dek,
                       dekNonce)) == Ok(plaintext)
  {
    hide Next, Wrap, OpenSealed, Inv, Ring.Valid, Extends;
    StartKeeps(a, master);
    AfterKeeps(a, Start(master), before);
    var first := After(a, Start(master), before);
    AfterKeeps(a, first, later);
    SealedOpens(a, first.ring, After(a, first, later).ring, dek, dekNonce, plaintext, dataNonce);
  }

  lemma SealedOpens(a: Aead, r: Ring, r': Ring, dek: Bytes, dekNonce: Bytes, plaintext: Bytes, dataNonce: Bytes)
    requires a.Lawful() && r.Valid() && r'.Valid() && Extends(r, r') && |dek| == DEK_SIZE
    requires |dekNonce| == NONCE_SIZE && |dataNonce| == NONCE_SIZE
    ensures OpenSealed(a, r', a.seal(dek, dataNonce, plaintext), Wrap(a, r, dek, dekNonce)) == Ok(plaintext)
  {
    hide VersionsFrom, Unwrap, Wraps, Wrap;
    var blob := Wrap(a, r, dek, dekNonce);
    WrapWraps(a, r, dek, dekNonce);
    WrapsSurvives(a, r, r', ActiveForm(r), dek, blob);
    UnwrapWrapped(a, r', ActiveForm(r), dek, blob);
  }

  /** No key is ever replaced or dropped, across any stretch of a lifetime. */
  lemma KeysAreNeverOverwritten(a: Aead, master: Bytes, before: seq<Op>, later: seq<Op>, v: Byte)
    requires a.Lawful() && |master| == KEY_SIZE
    requires forall k :: 0 <= k < |before| ==> WellFormed(before[k])
    requires forall k :: 0 <= k < |later| ==> WellFormed(later[k])
    requires v in After(a, Start(master), before).ring.keys
    ensures var first := After(a, Start(master), before);
            var now := After(a, first, later);
            v in now.ring.keys && now.ring.keys[v] == first.ring.keys[v]
  {
    hide VersionsFrom, Next;
    StartKeeps(a, master);
    AfterKeeps(a, Start(master), before);
    AfterKeeps(a, After(a, Start(master), before), later);
  }

  // ------------------------------------------------- versions given by the service

  /** Versions 1 to n and no other. */
  ghost predicate Consecutive(r: Ring, n: nat) {
    1 <= n <= 255 && forall v: Byte :: v in r.keys <==> 1 <= v <= n
  }

  predicate ByService(op: Op) {
    !op.AddKey? && !op.SetActive?
  }

  lemma NextVersionIs(r: Ring, n: nat)
    requires Consecutive(r, n)
    ensures r.NextVersion() as int == (n + 1) % 256
  {
    hide VersionsFrom;
    var versions := VersionsFrom(r.keys, 0);
    var top: Byte := n;
    assert top in versions;
    var k :| 0 <= k < |versions| && versions[k] == top;
    var last := versions[|versions| - 1];
    assert last in versions;
  }

  /** The next version is taken when the key has the right size and fewer than 255 are taken. */
  lemma NextVersionFits(r: Ring, n: nat, key: Bytes)
    requires Consecutive(r, n)
    ensures r.Accepts(r.NextVersion(), key) <==> |key| == KEY_SIZE && n < 255
    ensures r.Accepts(r.NextVersion(), key) ==> Consecutive(r.Add(r.NextVersion(), key), n + 1)
  {
    hide Ring.NextVersion;
    NextVersionIs(r, n);
    var next := r.NextVersion();
    if n < 255 {
      assert next == n + 1 && next !in r.keys;
    } else {
      assert next == 0;
    }
  }

  lemma ServiceNext(a: Aead, w: World, op: Op, n: nat)
    requires w.ring.Valid() && Consecutive(w.ring, n) && ByService(op)
    ensures var grows := (op.Rotate? || op.LoadPrevious?) && |op.key| == KEY_SIZE && n < 255;
            Consecutive(Next(a, w, op).ring, if grows then n + 1 else n)
  {
    hide Ring.NextVersion, Unwrap, Wrap;
    if op.Rotate? || op.LoadPrevious? {
      NextVersionFits(w.ring, n, op.key);
    }
  }

  /** The keys the service has accepted so far, the first one included. */
  function Loaded(ops: seq<Op>): nat {
    if ops == [] then 1
    else
      var op := ops[|ops| - 1];
      var before := Loaded(ops[..|ops| - 1]);
      if (op.Rotate? || op.LoadPrevious?) && |op.key| == KEY_SIZE && before < 255 then before + 1 else before
  }

  /** The keys the service has accepted, in order, the first one included. */
  function Keys(master: Bytes, ops: seq<Op>): seq<Bytes> {
    if ops == [] then [master]
    else
      var op := ops[|ops| - 1];
      var before := Keys(master, ops[..|ops| - 1]);
      if (op.Rotate? || op.LoadPrevious?) && |op.key| == 32 && |before| < 255 then before + [op.key] else before
  }

  /** The key that protects what is sealed now: that of the last rotation. */
  function Current(master: Bytes, ops: seq<Op>): Bytes {
    if ops == [] then master
    else
      var op := ops[|ops| - 1];
      if op.Rotate? && |op.key| == 32 && |Keys(master, ops[..|ops| - 1])| < 255 then op.key
      else Current(master, ops[..|ops| - 1])
  }

  /** Version v is the v-th key. */
  ghost predicate HoldsInOrder(r: Ring, keys: seq<Bytes>) {
    forall v: Byte :: 1 <= v <= |keys| ==> v in r.keys && r.keys[v] == keys[v as int - 1]
  }

  lemma ServiceKeysNext(a: Aead, w: World, op: Op, keys: seq<Bytes>)
    requires w.ring.Valid() && Consecutive(w.ring, |keys|) && HoldsInOrder(w.ring, keys) && ByService(op)
    ensures var grows := (op.Rotate? || op.LoadPrevious?) && |op.key| == KEY_SIZE && |keys| < 255;
            var keys' := if grows then keys + [op.key] else keys;
            var ring := Next(a, w, op).ring;
            && Consecutive(ring, |keys'|) && HoldsInOrder(ring, keys') && ring.active in ring.keys
            && ring.keys[ring.active] == (if grows && op.Rotate? then op.key else w.ring.keys[w.ring.active])
  {
    hide Ring.NextVersion, Unwrap, Wrap;
    if op.Rotate? || op.LoadPrevious? {
      NextVersionFits(w.ring, |keys|, op.key);
      NextVersionIs(w.ring, |keys|);
    }
  }

  /** Version v holds the v-th key that the service accepted, and the active key is that of the last rotation. */
  lemma {:induction false} ServiceKeys(a: Aead, master: Bytes, ops: seq<Op>)
    requires a.Lawful() && |master| == KEY_SIZE
    requires forall i :: 0 <= i < |ops| ==> WellFormed(ops[i]) && ByService(ops[i])
    ensures var ring, keys := After(a, Start(master), ops).ring, Keys(master, ops);
            && Consecutive(ring, |keys|) && ring.Valid() && HoldsInOrder(ring, keys)
            && ring.keys[ring.active] == Current(master, ops)
  {
    hide Next, Wraps;
    StartKeeps(a, master);
    AfterKeeps(a, Start(master), ops);
    if ops != [] {
      var n := |ops| - 1;
      ServiceKeys(a, master, ops[..n]);
      ServiceKeysNext(a, After(a, Start(master), ops[..n]), ops[n], Keys(master, ops[..n]));
    }
  }

  /** Through the service, versions are exactly 1..n; n counts the accepted keys and stops at 255. */
  lemma {:induction false} ServiceVersions(a: Aead, master: Bytes, ops: seq<Op>)
    requires a.Lawful() && |master| == KEY_SIZE
    requires forall i :: 0 <= i < |ops| ==> WellFormed(ops[i]) && ByService(ops[i])
    ensures Consecutive(After(a, Start(master), ops).ring, Loaded(ops))
  {
    hide Next, Wraps;
    if ops != [] {
      var n := |ops| - 1;
      ServiceVersions(a, master, ops[..n]);
      StartKeeps(a, master);
      AfterKeeps(a, Start(master), ops[..n]);
      ServiceNext(a, After(a, Start(master), ops[..n]), ops[n], Loaded(ops[..n]));
    }
  }
}
