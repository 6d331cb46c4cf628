/**
 The versioned master-key ring. A data key (DEK) is wrapped either in the legacy
 format, the bare AES-GCM blob, or in the versioned format, the blob behind one
 byte naming the key. The ring must tell the two apart and keep opening both
 while keys are added.

 AES-GCM is a parameter, an `Aead`, of which two facts are asked: opening undoes
 sealing, and a blob is 28 bytes (nonce and tag) longer than its plaintext.
 Nothing is asked about opening a blob with a wrong key.
 */
module KeyRing {
  import opened Outcomes

  type Byte = x: int | 0 <= x < 256
  type Bytes = seq<Byte>

  const KEY_SIZE := 32
  const DEK_SIZE := 32
  const NONCE_SIZE := 12
  const OVERHEAD := 28
  const MIN_VERSIONED := 1 + 13 + DEK_SIZE

  datatype Aead = Aead(seal: (Bytes, Bytes, Bytes) -> Bytes, open: (Bytes, Bytes) -> Option<Bytes>) {
    ghost predicate Lawful() {
      && (forall key, nonce, text :: |key| == KEY_SIZE && |nonce| == NONCE_SIZE ==>
            |seal(key, nonce, text)| == |text| + OVERHEAD && open(key, seal(key, nonce, text)) == Some(text))
      && (forall key, blob :: open(key, blob).Some? ==> |blob| == |open(key, blob).value| + OVERHEAD)
    }
  }

  datatype Error = BadKeySize | BadVersion | KnownVersion | UnknownVersion
                 | BadDekSize | EmptyBlob | NotOpened | NoKey

  // ------------------------------------------------------------ the ring as a value

  datatype Ring = Ring(keys: map<Byte, Bytes>, active: Byte, legacy: bool) {

    /** Key 1 is there from the start; while the ring is legacy it is the only one. */
    ghost predicate Valid() {
      && 1 in keys && 0 !in keys && active in keys
      && (forall v :: v in keys ==> |keys[v]| == KEY_SIZE)
      && (legacy ==> keys.Keys == {1})
    }

    predicate Accepts(version: Byte, key: Bytes) {
      version != 0 && |key| == KEY_SIZE && version !in keys
    }

    function Add(version: Byte, key: Bytes): Ring {
      if Accepts(version, key) then Ring(keys[version := key], version, false) else this
    }

    function Activate(version: Byte): Ring {
      if version in keys then this.(active := version) else this
    }

    /** The version after the highest one; the byte wraps from 255 to 0, which `Add` refuses. */
    function NextVersion(): Byte {
      var versions := VersionsFrom(keys, 0);
      if versions == [] then 1 else (versions[|versions| - 1] as int + 1) % 256
    }

    function Rotate(key: Bytes): Ring {
      Add(NextVersion(), key)
    }

    function LoadPrevious(key: Bytes): Ring {
      if Accepts(NextVersion(), key) then Add(NextVersion(), key).Activate(active) else this
    }
  }

  /** The version is the next after the highest of the ring. */
  predicate Above(version: Byte, keys: map<Byte, Bytes>) {
    && version != 0 && (forall v :: v in keys ==> v < version)
    && (version == 1 || (version as int - 1) as Byte in keys)
  }

  /** The key is new, under the next version. */
  ghost predicate Gains(keys: map<Byte, Bytes>, keys': map<Byte, Bytes>, key: Bytes) {
    exists v :: Above(v, keys) && keys' == keys[v := key]
  }

  lemma NextIsAbove(r: Ring, key: Bytes)
    ensures 255 !in r.keys ==> Above(r.NextVersion(), r.keys)
                               && Gains(r.keys, r.keys[r.NextVersion() := key], key)
    ensures 255 in r.keys ==> r.NextVersion() == 0
  {
    hide VersionsFrom;
    var versions := VersionsFrom(r.keys, 0);
    if versions != [] {
      var last := versions[|versions| - 1];
      assert last in versions;
      forall v: Byte | v in r.keys ensures v <= last {
        assert v in versions;
      }
    } else {
      assert forall v: Byte :: v in r.keys ==> v in versions;
    }
  }

  function NewRing(master: Bytes): Ring {
    Ring(map[1 := master], 1, true)
  }

  /** The versions at or above `from`, ascending. */
  function VersionsFrom(keys: map<Byte, Bytes>, from: nat): (r: seq<Byte>)
    requires from <= 256
    ensures forall v: Byte :: v in r <==> v in keys && from <= v
    ensures forall i, j :: 0 <= i < j < |r| ==> r[i] < r[j]
    decreases 256 - from
  {
    if from == 256 then []
    else
      var rest := VersionsFrom(keys, from + 1);
      assert forall i :: 0 <= i < |rest| ==> rest[i] in rest;
      if from in keys then [from as Byte] + rest else rest
  }

  // ------------------------------------------------------- wrapping and unwrapping

  /** How a blob was made: without a version byte, or under a named key. */
  datatype Form = Legacy | Versioned(version: Byte)

  function ActiveForm(r: Ring): Form {
    if r.legacy && r.active == 1 then Legacy else Versioned(r.active)
  }

  function Wrap(a: Aead, r: Ring, dek: Bytes, nonce: Bytes): Bytes
    requires r.active in r.keys
  {
    var enc := a.seal(r.keys[r.active], nonce, dek);
    if ActiveForm(r).Legacy? then enc else [r.active] + enc
  }

  /** The blob is a wrapping of `dek` in the given form by a key the ring holds. */
  ghost predicate Wraps(a: Aead, r: Ring, form: Form, dek: Bytes, blob: Bytes) {
    && |dek| == DEK_SIZE
    && match form
       case Legacy =>
         1 in r.keys && exists nonce :: |nonce| == NONCE_SIZE && blob == a.seal(r.keys[1], nonce, dek)
       case Versioned(v) =>
         && v in r.keys && !r.legacy
         && exists nonce :: |nonce| == NONCE_SIZE && blob == [v] + a.seal(r.keys[v], nonce, dek)
  }

  /** The DEK a key opens the blob to, if it has the right size. */
  function OpenDek(a: Aead, key: Bytes, blob: Bytes): Option<Bytes> {
    var dek := a.open(key, blob);
    if dek.Some? && |dek.value| == DEK_SIZE then dek else None
  }

  /** The version a blob names, when the named key does open the rest of it to a DEK. */
  function NamedVersion(a: Aead, r: Ring, blob: Bytes): (v: Option<Byte>)
    ensures v.Some? ==> v.value in r.keys && blob != []
  {
    if |blob| >= MIN_VERSIONED && blob[0] > 0 && blob[0] in r.keys && OpenDek(a, r.keys[blob[0]], blob[1..]).Some?
    then Some(blob[0]) else None
  }

  function TryVersions(a: Aead, keys: map<Byte, Bytes>, versions: seq<Byte>, blob: Bytes): Result<Bytes, Error> {
    if versions == [] then Err(NotOpened)
    else if versions[0] in keys && OpenDek(a, keys[versions[0]], blob).Some?
    then Ok(OpenDek(a, keys[versions[0]], blob).value)
    else TryVersions(a, keys, versions[1..], blob)
  }

  lemma TryNext(a: Aead, keys: map<Byte, Bytes>, versions: seq<Byte>, i: nat, blob: Bytes)
    requires i < |versions| && versions[i] in keys
    ensures var dek := OpenDek(a, keys[versions[i]], blob);
            TryVersions(a, keys, versions[i..], blob) ==
            if dek.Some? then Ok(dek.value) else TryVersions(a, keys, versions[i + 1..], blob)
  {
    hide OpenDek;
    assert versions[i..][1..] == versions[i + 1..];
  }

  /** The key opens the blob to something of the size of a DEK. */
  predicate Opens(a: Aead, key: Bytes, blob: Bytes) {
    a.open(key, blob).Some? && |a.open(key, blob).value| == 32
  }

  lemma {:induction false} TryFinds(a: Aead, keys: map<Byte, Bytes>, versions: seq<Byte>, blob: Bytes)
    requires forall i, j :: 0 <= i < j < |versions| ==> versions[i] < versions[j]
    requires forall v: Byte :: v in versions ==> v in keys
    ensures var r := TryVersions(a, keys, versions, blob);
            && (r.Err? ==> r == Err(NotOpened) && forall v: Byte :: v in versions ==> !Opens(a, keys[v], blob))
            && (r.Ok? ==> exists v: Byte :: v in versions && Opens(a, keys[v], blob)
                                            && r.value == a.open(keys[v], blob).value
                                            && forall u: Byte :: u in versions && u < v ==> !Opens(a, keys[u], blob))
  {
    if versions != [] {
      var first, rest := versions[0], versions[1..];
      TryFinds(a, keys, rest, blob);
      assert forall v: Byte :: v in versions <==> v == first || v in rest;
      assert forall v: Byte :: v in rest ==> first < v;
    }
  }

  lemma TryNone(a: Aead, keys: map<Byte, Bytes>, blob: Bytes)
    ensures TryVersions(a, keys, [], blob) == Err(NotOpened)
  {
  }

  function Unwrap(a: Aead, r: Ring, blob: Bytes): Result<Bytes, Error> {
    if blob == [] then Err(EmptyBlob)
    else if NamedVersion(a, r, blob).Some? then Ok(OpenDek(a, r.keys[blob[0]], blob[1..]).value)
    else TryVersions(a, r.keys, VersionsFrom(r.keys, 0), blob)
  }

  ghost predicate Named(a: Aead, keys: map<Byte, Bytes>, blob: Bytes) {
    |blob| >= 46 && blob[0] != 0 && blob[0] in keys && Opens(a, keys[blob[0]], blob[1..])
  }

  /** The key the blob names opens the rest of it; else the lowest key that opens all of it; else there is none. */
  ghost predicate Finds(a: Aead, keys: map<Byte, Bytes>, blob: Bytes, r: Result<Bytes, Error>) {
    if blob == [] then r == Err(EmptyBlob)
    else if Named(a, keys, blob) then r == Ok(a.open(keys[blob[0]], blob[1..]).value)
    else if r.Err? then r == Err(NotOpened) && forall v: Byte :: v in keys ==> !Opens(a, keys[v], blob)
    else exists v: Byte ::
           && v in keys && Opens(a, keys[v], blob) && r.value == a.open(keys[v], blob).value
           && forall u: Byte :: u in keys && u < v ==> !Opens(a, keys[u], blob)
  }

  lemma UnwrapFinds(a: Aead, r: Ring, blob: Bytes)
    ensures Finds(a, r.keys, blob, Unwrap(a, r, blob))
  {
    hide VersionsFrom, TryVersions;
    TryFinds(a, r.keys, VersionsFrom(r.keys, 0), blob);
  }

  predicate NeedsRewrap(a: Aead, r: Ring, blob: Bytes) {
    if r.legacy && r.active == 1 then false
    else
      var version := NamedVersion(a, r, blob);
      version.None? || version.value != r.active
  }

  // ------------------------------------------------------------------ main facts

  lemma LowestVersion(r: Ring)
    requires r.Valid()
    ensures var versions := VersionsFrom(r.keys, 0); |versions| > 0 && versions[0] == 1
  {
    var versions := VersionsFrom(r.keys, 0);
    assert 1 in versions;
    assert versions[0] in r.keys;
  }

  /** A legacy blob never reads as a versioned one: without its first byte it opens to 31 bytes at most. */
  lemma LegacyIsNotNamed(a: Aead, r: Ring, dek: Bytes, blob: Bytes)
    requires a.Lawful() && r.Valid() && Wraps(a, r, Legacy, dek, blob)
    ensures NamedVersion(a, r, blob).None? && |blob| == DEK_SIZE + OVERHEAD
  {
    assert |blob[1..]| == DEK_SIZE + OVERHEAD - 1;
  }

  lemma VersionedIsNamed(a: Aead, r: Ring, v: Byte, dek: Bytes, blob: Bytes)
    requires a.Lawful() && r.Valid() && Wraps(a, r, Versioned(v), dek, blob)
    ensures NamedVersion(a, r, blob) == Some(v) && OpenDek(a, r.keys[v], blob[1..]) == Some(dek)
  {
    var nonce :| |nonce| == NONCE_SIZE && blob == [v] + a.seal(r.keys[v], nonce, dek);
    assert blob[1..] == a.seal(r.keys[v], nonce, dek);
  }

  /** Whatever the form, a wrapping by a key of the ring unwraps to its DEK. */
  lemma UnwrapWrapped(a: Aead, r: Ring, form: Form, dek: Bytes, blob: Bytes)
    requires a.Lawful() && r.Valid() && Wraps(a, r, form, dek, blob)
    ensures Unwrap(a, r, blob) == Ok(dek)
  {
    hide TryVersions, VersionsFrom;
    match form
    case Legacy =>
      LegacyIsNotNamed(a, r, dek, blob);
      LowestVersion(r);
      LegacyTriedFirst(a, r, dek, blob, VersionsFrom(r.keys, 0));
    case Versioned(v) =>
      VersionedIsNamed(a, r, v, dek, blob);
  }

  lemma LegacyTriedFirst(a: Aead, r: Ring, dek: Bytes, blob: Bytes, versions: seq<Byte>)
    requires a.Lawful() && r.Valid() && Wraps(a, r, Legacy, dek, blob) && versions != [] && versions[0] == 1
    ensures TryVersions(a, r.keys, versions, blob) == Ok(dek)
  {
    hide TryVersions, VersionsFrom;
    assert versions[0..] == versions;
    TryNext(a, r.keys, versions, 0, blob);
  }

  /** A blob needs re-wrapping exactly when its form is not the active one. */
  lemma NeedsRewrapIff(a: Aead, r: Ring, form: Form, dek: Bytes, blob: Bytes)
    requires a.Lawful() && r.Valid() && Wraps(a, r, form, dek, blob)
    ensures NeedsRewrap(a, r, blob) <==> form != ActiveForm(r)
  {
    match form
    case Legacy => LegacyIsNotNamed(a, r, dek, blob);
    case Versioned(v) => VersionedIsNamed(a, r, v, dek, blob);
  }

  lemma WrapWraps(a: Aead, r: Ring, dek: Bytes, nonce: Bytes)
    requires r.Valid() && |dek| == DEK_SIZE && |nonce| == NONCE_SIZE
    ensures Wraps(a, r, ActiveForm(r), dek, Wrap(a, r, dek, nonce))
  {
  }

  /** The ring only gains keys, and never becomes legacy again. */
  ghost predicate Extends(r: Ring, r': Ring) {
    && (forall v :: v in r.keys ==> v in r'.keys && r'.keys[v] == r.keys[v])
    && (r'.legacy ==> r.legacy)
  }

  lemma WrapsSurvives(a: Aead, r: Ring, r': Ring, form: Form, dek: Bytes, blob: Bytes)
    requires Wraps(a, r, form, dek, blob) && Extends(r, r')
    ensures Wraps(a, r', form, dek, blob)
  {
  }

  // ------------------------------------------------------------------ the classes

  class Keyring {
    const aead: Aead
    var keys: map<Byte, Bytes>
    var active: Byte
    var legacy: bool

    ghost function Value(): Ring
      reads this
    {
      Ring(keys, active, legacy)
    }

    constructor (aead: Aead, master: Bytes)
      requires |master| == KEY_SIZE
      ensures this.aead == aead && Value() == NewRing(master) && Value().Valid()
      ensures keys == map[1 := master] && active == 1 && legacy
    {
      this.aead := aead;
      keys, active, legacy := map[1 := master], 1, true;
    }

    method SetActiveVersion(version: Byte) returns (r: Result<(), Error>)
      modifies this
      ensures Value() == old(Value()).Activate(version)
      ensures r == if version in old(keys) then Ok(()) else Err(UnknownVersion)
      ensures active == (if r.Ok? then version else old(active)) && keys == old(keys) && legacy == old(legacy)
    {
      if version !in keys {
        return Err(UnknownVersion);
      }
      active := version;
      return Ok(());
    }

    method AddKey(version: Byte, master: Bytes) returns (r: Result<(), Error>)
      modifies this
      ensures Value() == old(Value()).Add(version, master)
      ensures r == if version == 0 then Err(BadVersion) else if |master| != 32 then Err(BadKeySize)
                   else if version in old(keys) then Err(KnownVersion) else Ok(())
      ensures r.Ok? ==> keys == old(keys)[version := master] && active == version && !legacy
      ensures r.Err? ==> keys == old(keys) && active == old(active) && legacy == old(legacy)
    {
      if version == 0 {
        return Err(BadVersion);
      }
      if |master| != KEY_SIZE {
        return Err(BadKeySize);
      }
      if version in keys {
        return Err(KnownVersion);
      }
      keys := keys[version := master];
      active := version;
      legacy := false;
      return Ok(());
    }

    method Versions() returns (versions: seq<Byte>)
      ensures versions == VersionsFrom(keys, 0)
    {
      versions := [];
      var v: nat := 256;
      while v > 0
        invariant 0 <= v <= 256 && versions == VersionsFrom(keys, v)
      {
        v := v - 1;
        if v in keys {
          versions := [v as Byte] + versions;
        }
      }
    }

    method EncryptDEK(dek: Bytes, nonce: Bytes) returns (r: Result<Bytes, Error>)
      requires Value().Valid() && |nonce| == NONCE_SIZE
      ensures r.Ok? <==> |dek| == DEK_SIZE
      ensures r.Ok? ==>
                r.value == if legacy && active == 1 then aead.seal(keys[1], nonce, dek)
                           else [active] + aead.seal(keys[active], nonce, dek)
      ensures r.Ok? ==> r.value == Wrap(aead, Value(), dek, nonce)
                        && Wraps(aead, Value(), ActiveForm(Value()), dek, r.value)
    {
      if |dek| != DEK_SIZE {
        return Err(BadDekSize);
      }
      var enc := aead.seal(keys[active], nonce, dek);
      WrapWraps(aead, Value(), dek, nonce);
      if legacy && active == 1 {
        return Ok(enc);
      }
      return Ok([active] + enc);
    }

    method DecryptDEK(enc: Bytes) returns (r: Result<Bytes, Error>)
      ensures r == Unwrap(aead, Value(), enc)
      ensures r.Ok? ==> |r.value| == DEK_SIZE
      ensures Finds(aead, keys, enc, r)
    {
      UnwrapFinds(aead, Value(), enc);
      hide VersionsFrom, TryVersions, Finds;
      TryNone(aead, keys, enc);
      if |enc| == 0 {
        return Err(EmptyBlob);
      }
      var versions := Versions();
      if |enc| >= MIN_VERSIONED {
        var version := enc[0];
        if version > 0 && version in versions {
          var dek := aead.open(keys[version], enc[1..]);
          if dek.Some? && |dek.value| == DEK_SIZE {
            return Ok(dek.value);
          }
        }
      }
      for i := 0 to |versions|
        invariant TryVersions(aead, keys, versions, enc) == TryVersions(aead, keys, versions[i..], enc)
      {
        assert versions[i] in versions;
        TryNext(aead, keys, versions, i, enc);
        var dek := aead.open(keys[versions[i]], enc);
        if dek.Some? && |dek.value| == DEK_SIZE {
          return Ok(dek.value);
        }
      }
      assert versions[|versions|..] == [];
      return Err(NotOpened);
    }

    method DEKNeedsReencrypt(enc: Bytes) returns (stale: bool)
      ensures stale == NeedsRewrap(aead, Value(), enc)
      ensures stale <==> !(legacy && active == 1) && !(Named(aead, keys, enc) && enc[0] == active)
    {
      if legacy && active == 1 {
        return false;
      }
      var version := VersionedDEKVersion(enc);
      if version.Some? {
        return version.value != active;
      }
      return true;
    }

    method VersionedDEKVersion(enc: Bytes) returns (v: Option<Byte>)
      ensures v == NamedVersion(aead, Value(), enc)
      ensures v == if Named(aead, keys, enc) then Some(enc[0]) else None
    {
      if |enc| < MIN_VERSIONED || enc[0] == 0 || enc[0] !in keys {
        return None;
      }
      var dek := aead.open(keys[enc[0]], enc[1..]);
      if dek.None? || |dek.value| != DEK_SIZE {
        return None;
      }
      return Some(enc[0]);
    }

    method ReencryptDEK(enc: Bytes, nonce: Bytes) returns (r: Result<Bytes, Error>)
      requires aead.Lawful() && Value().Valid() && |nonce| == NONCE_SIZE
      ensures r.Ok? <==> Unwrap(aead, Value(), enc).Ok?
      ensures r.Ok? ==> Wraps(aead, Value(), ActiveForm(Value()), Unwrap(aead, Value(), enc).value, r.value)
      ensures r.Ok? ==> Unwrap(aead, Value(), r.value) == Unwrap(aead, Value(), enc)
      ensures r.Ok? ==> !NeedsRewrap(aead, Value(), r.value)
      ensures r.Err? ==> Finds(aead, keys, enc, r)
    {
      var dek := DecryptDEK(enc);
      if dek.Err? {
        return Err(dek.error);
      }
      r := EncryptDEK(dek.value, nonce);
      UnwrapWrapped(aead, Value(), ActiveForm(Value()), dek.value, r.value);
      NeedsRewrapIff(aead, Value(), ActiveForm(Value()), dek.value, r.value);
    }
  }

  method NewKeyRing(aead: Aead, master: Bytes) returns (r: Result<Keyring, Error>)
    ensures r == Err(BadKeySize) <==> |master| != 32
    ensures r.Ok? <==> |master| == 32
    ensures r.Ok? ==> fresh(r.value) && r.value.aead == aead && r.value.Value() == NewRing(master)
                      && r.value.keys == map[1 := master] && r.value.active == 1 && r.value.legacy
  {
    if |master| != KEY_SIZE {
      return Err(BadKeySize);
    }
    var ring := new Keyring(aead, master);
    return Ok(ring);
  }

  /** The ciphertext of a payload under a DEK, opened again through the wrapped DEK. */
  function OpenSealed(a: Aead, r: Ring, ciphertext: Bytes, dekEnc: Bytes): Result<Bytes, Error> {
    var dek := Unwrap(a, r, dekEnc);
    if dek.Err? then Err(dek.error)
    else
      var text := a.open(dek.value, ciphertext);
      if text.None? then Err(NotOpened) else Ok(text.value)
  }

  class Service {
    const ring: Keyring

    constructor (ring: Keyring)
      ensures this.ring == ring
    {
      this.ring := ring;
    }

    method NextVersion() returns (next: Byte)
      ensures next == ring.Value().NextVersion()
    {
      hide VersionsFrom;
      var versions := ring.Versions();
      next := 1;
      if |versions| > 0 {
        next := (versions[|versions| - 1] as int + 1) % 256;
      }
    }

    method RotateMasterKey(master: Bytes) returns (r: Result<Byte, Error>)
      modifies ring
      ensures ring.Value() == old(ring.Value()).Rotate(master)
      ensures r.Ok? <==> old(ring.Value()).Accepts(old(ring.Value()).NextVersion(), master)
      ensures r.Ok? ==> r.value == ring.active == old(ring.Value()).NextVersion()
      ensures r.Ok? <==> |master| == 32 && 255 !in old(ring.keys)
      ensures r.Ok? ==> ring.keys == old(ring.keys)[r.value := master] && !ring.legacy
                        && Above(r.value, old(ring.keys))
      ensures r.Ok? ==> forall dek, nonce ::
                          Wrap(ring.aead, ring.Value(), dek, nonce) == [r.value] + ring.aead.seal(master, nonce, dek)
      ensures r.Err? ==> ring.keys == old(ring.keys) && ring.active == old(ring.active)
                         && ring.legacy == old(ring.legacy)
    {
      NextIsAbove(ring.Value(), master);
      hide Ring.NextVersion, Above, Gains;
      var next := NextVersion();
      var added := ring.AddKey(next, master);
      if added.Err? {
        return Err(added.error);
      }
      return Ok(next);
    }

    method LoadPreviousMasterKey(master: Bytes) returns (r: Result<(), Error>)
      requires ring.Value().Valid()
      modifies ring
      ensures ring.Value() == old(ring.Value()).LoadPrevious(master)
      ensures r.Ok? <==> old(ring.Value()).Accepts(old(ring.Value()).NextVersion(), master)
      ensures ring.active == old(ring.active)
      ensures r.Ok? <==> |master| == 32 && 255 !in old(ring.keys)
      ensures r.Ok? ==> !ring.legacy && Gains(old(ring.keys), ring.keys, master)
      ensures r.Err? ==> ring.keys == old(ring.keys) && ring.legacy == old(ring.legacy)
    {
      NextIsAbove(ring.Value(), master);
      hide Ring.NextVersion, Above, Gains;
      if |master| != KEY_SIZE {
        return Err(BadKeySize);
      }
      var active := ring.active;
      var next := NextVersion();
      var added := ring.AddKey(next, master);
      if added.Err? {
        return Err(added.error);
      }
      r := ring.SetActiveVersion(active);
    }

    /** `dek` and the nonces are drawn at random by the caller's environment. */
    method Seal(plaintext: Bytes, dek: Bytes, dataNonce: Bytes, dekNonce: Bytes)
      returns (ciphertext: Bytes, dekEnc: Bytes)
      requires ring.Value().Valid()
      requires |dek| == DEK_SIZE && |dataNonce| == NONCE_SIZE && |dekNonce| == NONCE_SIZE
      ensures ciphertext == ring.aead.seal(dek, dataNonce, plaintext)
      ensures Wraps(ring.aead, ring.Value(), ActiveForm(ring.Value()), dek, dekEnc)
    {
      ciphertext := ring.aead.seal(dek, dataNonce, plaintext);
      var wrapped := ring.EncryptDEK(dek, dekNonce);
      dekEnc := wrapped.value;
    }

    method Open(ciphertext: Bytes, dekEnc: Bytes) returns (r: Result<Bytes, Error>)
      ensures r == OpenSealed(ring.aead, ring.Value(), ciphertext, dekEnc)
    {
      var dek := ring.DecryptDEK(dekEnc);
      if dek.Err? {
        return Err(dek.error);
      }
      var text := ring.aead.open(dek.value, ciphertext);
      if text.None? {
        return Err(NotOpened);
      }
      return Ok(text.value);
    }
  }
}
