/**
 The audit hash chain: how an entry is hashed, when an ordered list of entries
 is accepted, and what two accepted lists with the same head must share.

 SHA-256 and time formatting are outside the model. They are a parameter, a
 `Digest`, of which only what hex encoding and RFC 3339 text guarantee is asked.
 No injectivity is asked of it (no function from all texts to 64 hex characters
 has that); a theorem that needs it asks that the payloads at hand do not collide.
 */
module AuditChain {
  import opened JsonTexts
  import opened Outcomes

  /** An instant, and the zone it is written in. */
  datatype Timestamp = Timestamp(instant: int, zone: int)

  datatype Digest = Digest(sum: string -> string, format: Timestamp -> string) {

    /** Sums are 64 characters; neither sums nor time texts contain the separator. */
    ghost predicate Lawful() {
      && (forall text: string :: |sum(text)| == 64 && '|' !in sum(text))
      && (forall ts: Timestamp :: '|' !in format(ts))
    }
  }

  /** What an entry says, apart from its hash. `details` is its JSON text, "{}" when it has none. */
  datatype Event = Event(
    timestamp: Timestamp, actor: string, action: string, resource: string, status: string, details: string)

  datatype Record = Record(event: Event, hash: string)

  function Body(e: Event): string {
    e.actor + "|" + e.action + "|" + e.resource + "|" + e.status + "|" + e.details
  }

  function Payload(d: Digest, prevHash: string, e: Event): string {
    prevHash + "|" + (d.format(e.timestamp) + "|" + Body(e))
  }

  function EntryHash(d: Digest, prevHash: string, e: Event): string {
    d.sum(Payload(d, prevHash, e))
  }

  function HashBefore(chain: seq<Record>, i: nat): string
    requires i <= |chain|
  {
    if i == 0 then "" else chain[i - 1].hash
  }

  function Head(chain: seq<Record>): string {
    HashBefore(chain, |chain|)
  }

  /** Link `i` carries the hash of its own event and of the link before it. */
  ghost predicate Linked(d: Digest, chain: seq<Record>, i: nat)
    requires i < |chain|
  {
    chain[i].hash == EntryHash(d, HashBefore(chain, i), chain[i].event)
  }

  ghost predicate Chained(d: Digest, chain: seq<Record>) {
    forall i :: 0 <= i < |chain| ==> Linked(d, chain, i)
  }

  /** The text hashed when link `i` is checked. */
  function PayloadAt(d: Digest, chain: seq<Record>, i: nat): string
    requires i < |chain|
  {
    Payload(d, HashBefore(chain, i), chain[i].event)
  }

  /** No text hashed when `a` is checked collides with one hashed when `b` is. */
  ghost predicate CollisionFree(d: Digest, a: seq<Record>, b: seq<Record>) {
    forall i, j ::
      0 <= i < |a| && 0 <= j < |b| && d.sum(PayloadAt(d, a, i)) == d.sum(PayloadAt(d, b, j))
      ==> PayloadAt(d, a, i) == PayloadAt(d, b, j)
  }

  /** The seven fields, in this order, are what the hash is taken of. */
  ghost predicate HashesText(d: Digest, chain: seq<Record>, i: nat)
    requires i < |chain|
  {
    var e, prevHash := chain[i].event, if i == 0 then "" else chain[i - 1].hash;
    chain[i].hash == d.sum(prevHash + "|" + (d.format(e.timestamp) + "|" + (
      e.actor + "|" + e.action + "|" + e.resource + "|" + e.status + "|" + e.details)))
  }

  lemma LinkedIsText(d: Digest, chain: seq<Record>, i: nat)
    requires i < |chain|
    ensures HashesText(d, chain, i) <==> Linked(d, chain, i)
  {
  }

  /** The validator for backup records: the error is the index of the first broken link. */
  method ValidateRecordChain(d: Digest, records: seq<Record>) returns (err: Option<nat>)
    ensures err.None? <==> Chained(d, records)
    ensures err.None? <==> forall i :: 0 <= i < |records| ==> HashesText(d, records, i)
    ensures err.Some? ==> err.value < |records| && !Linked(d, records, err.value)
    ensures err.Some? ==> Chained(d, records[..err.value])
  {
    forall i | 0 <= i < |records| ensures HashesText(d, records, i) <==> Linked(d, records, i) {
      LinkedIsText(d, records, i);
    }
    hide HashesText;
    var prevHash := "";
    for i := 0 to |records|
      invariant prevHash == HashBefore(records, i)
      invariant forall k :: 0 <= k < i ==> Linked(d, records, k)
    {
      var expected := EntryHash(d, prevHash, records[i].event);
      if records[i].hash != expected {
        assert !Linked(d, records, i);
        PrefixChained(d, records, i);
        return Some(i);
      }
      prevHash := records[i].hash;
    }
    return None;
  }

  datatype ChainError = NilEntry(index: nat) | HashMismatch(index: nat)

  /** The entries before the first missing one. */
  function Present(entries: seq<Option<Record>>): (r: seq<Record>)
    ensures |r| <= |entries|
    ensures forall i :: 0 <= i < |r| ==> entries[i] == Some(r[i])
    ensures |r| < |entries| ==> entries[|r|].None?
  {
    if entries == [] || entries[0].None? then [] else [entries[0].value] + Present(entries[1..])
  }

  /** The validator for log entries, which may be missing. */
  method ValidateChain(d: Digest, entries: seq<Option<Record>>) returns (err: Option<ChainError>)
    ensures err.None? <==> |Present(entries)| == |entries| && Chained(d, Present(entries))
    ensures err.Some? && err.value.NilEntry? ==>
              err.value.index == |Present(entries)| < |entries| && Chained(d, Present(entries))
    ensures err.Some? && err.value.HashMismatch? ==>
              && err.value.index < |Present(entries)| && !Linked(d, Present(entries), err.value.index)
              && Chained(d, Present(entries)[..err.value.index])
  {
    hide EntryHash, Present, Linked;
    ghost var present := Present(entries);
    var prevHash := "";
    for i := 0 to |entries|
      invariant i <= |present|
      invariant prevHash == HashBefore(present, i)
      invariant forall k :: 0 <= k < i ==> Linked(d, present, k)
    {
      if entries[i].None? {
        return Some(NilEntry(i));
      }
      var entry := entries[i].value;
      LinkedIff(d, present, i);
      var expected := EntryHash(d, prevHash, entry.event);
      if entry.hash != expected {
        PrefixChained(d, present, i);
        return Some(HashMismatch(i));
      }
      prevHash := entry.hash;
    }
    return None;
  }

  // ---------------------------------------------------------------- basic facts

  lemma LinkedIff(d: Digest, chain: seq<Record>, i: nat)
    requires i < |chain|
    ensures Linked(d, chain, i) <==> EntryHash(d, HashBefore(chain, i), chain[i].event) == chain[i].hash
  {
  }

  lemma PrefixChained(d: Digest, chain: seq<Record>, k: nat)
    requires k <= |chain|
    requires forall i :: 0 <= i < k ==> Linked(d, chain, i)
    ensures Chained(d, chain[..k])
  {
    forall i | 0 <= i < k ensures Linked(d, chain[..k], i) {
      assert Linked(d, chain, i);
      assert HashBefore(chain[..k], i) == HashBefore(chain, i);
    }
  }

  lemma PrefixCollisionFree(d: Digest, a: seq<Record>, b: seq<Record>, m: nat, n: nat)
    requires m <= |a| && n <= |b| && CollisionFree(d, a, b)
    ensures CollisionFree(d, a[..m], b[..n])
  {
    hide Payload;
    assert forall i :: 0 <= i < m ==> PayloadAt(d, a[..m], i) == PayloadAt(d, a, i);
    assert forall j :: 0 <= j < n ==> PayloadAt(d, b[..n], j) == PayloadAt(d, b, j);
  }

  lemma DropLast(d: Digest, chain: seq<Record>)
    requires Chained(d, chain) && |chain| > 0
    ensures Chained(d, chain[..|chain| - 1])
    ensures Head(chain[..|chain| - 1]) == HashBefore(chain, |chain| - 1)
  {
    PrefixChained(d, chain, |chain| - 1);
  }

  /** A text without the separator in front of the first separator can be read back. */
  lemma SplitAtSeparator(a: string, rest: string, b: string, rest': string)
    requires '|' !in a && '|' !in b
    requires a + "|" + rest == b + "|" + rest'
    ensures a == b && rest == rest'
  {
    var text := a + "|" + rest;
    assert text[|a|] == '|' && text[|b|] == '|';
    assert forall k :: 0 <= k < |a| ==> text[k] == a[k] && a[k] in a;
    assert forall k :: 0 <= k < |b| ==> text[k] == b[k] && b[k] in b;
    assert a == text[..|a|] == b;
    assert rest == text[|a| + 1..] == rest';
  }

  lemma SamePayload(d: Digest, prev: string, e: Event, prev': string, e': Event)
    requires d.Lawful() && '|' !in prev && '|' !in prev'
    requires Payload(d, prev, e) == Payload(d, prev', e')
    ensures prev == prev' && d.format(e.timestamp) == d.format(e'.timestamp) && Body(e) == Body(e')
  {
    SplitAtSeparator(prev, d.format(e.timestamp) + "|" + Body(e), prev', d.format(e'.timestamp) + "|" + Body(e'));
    SplitAtSeparator(d.format(e.timestamp), Body(e), d.format(e'.timestamp), Body(e'));
  }

  ghost predicate SeparatorFree(e: Event) {
    '|' !in e.actor && '|' !in e.action && '|' !in e.resource && '|' !in e.status
  }

  lemma SameBody(e: Event, e': Event)
    requires Body(e) == Body(e') && SeparatorFree(e) && SeparatorFree(e')
    ensures e.(timestamp := e'.timestamp) == e'
  {
    var r3, r3' := e.status + "|" + e.details, e'.status + "|" + e'.details;
    var r2, r2' := e.resource + "|" + r3, e'.resource + "|" + r3';
    var r1, r1' := e.action + "|" + r2, e'.action + "|" + r2';
    assert Body(e) == e.actor + "|" + r1 && Body(e') == e'.actor + "|" + r1';
    SplitAtSeparator(e.actor, r1, e'.actor, r1');
    SplitAtSeparator(e.action, r2, e'.action, r2');
    SplitAtSeparator(e.resource, r3, e'.resource, r3');
    SplitAtSeparator(e.status, e.details, e'.status, e'.details);
  }

  lemma LinkHash(d: Digest, chain: seq<Record>, i: nat)
    requires d.Lawful() && Chained(d, chain) && i <= |chain|
    ensures '|' !in HashBefore(chain, i)
    ensures |HashBefore(chain, i)| == if i == 0 then 0 else 64
  {
    if i > 0 { assert Linked(d, chain, i - 1); }
  }

  // ---------------------------------------------------------------- main results

  /** Two links with the same hash, in lists that do not collide, hashed the same text. */
  lemma SameHash(d: Digest, a: seq<Record>, i: nat, b: seq<Record>, j: nat)
    requires d.Lawful() && Chained(d, a) && Chained(d, b) && i < |a| && j < |b|
    requires CollisionFree(d, a, b)
    requires a[i].hash == b[j].hash
    ensures HashBefore(a, i) == HashBefore(b, j)
    ensures d.format(a[i].event.timestamp) == d.format(b[j].event.timestamp)
    ensures Body(a[i].event) == Body(b[j].event)
  {
    assert Linked(d, a, i) && Linked(d, b, j);
    assert PayloadAt(d, a, i) == PayloadAt(d, b, j);
    LinkHash(d, a, i);
    LinkHash(d, b, j);
    SamePayload(d, HashBefore(a, i), a[i].event, HashBefore(b, j), b[j].event);
  }

  /** Two records carry the same hash, time text and joined payload text. */
  ghost predicate SameText(d: Digest, r: Record, r': Record) {
    && r.hash == r'.hash
    && d.format(r.event.timestamp) == d.format(r'.event.timestamp)
    && Body(r.event) == Body(r'.event)
  }

  /** The head fixes the whole list: length, hashes, time texts and joined payload texts. */
  lemma {:induction false} HeadFixesChain(d: Digest, a: seq<Record>, b: seq<Record>)
    requires d.Lawful() && Chained(d, a) && Chained(d, b) && Head(a) == Head(b)
    requires CollisionFree(d, a, b)
    ensures |a| == |b|
    ensures forall i :: 0 <= i < |a| ==> SameText(d, a[i], b[i])
    decreases |a|
  {
    hide CollisionFree, Chained, Body;
    LinkHash(d, a, |a|);
    LinkHash(d, b, |b|);
    if |a| > 0 {
      var m, n := |a| - 1, |b| - 1;
      SameHash(d, a, m, b, n);
      DropLast(d, a);
      DropLast(d, b);
      PrefixCollisionFree(d, a, b, m, n);
      HeadFixesChain(d, a[..m], b[..n]);
      forall i | 0 <= i < |a| ensures SameText(d, a[i], b[i]) {
        if i < m { assert a[i] == a[..m][i] && b[i] == b[..n][i]; }
      }
    }
  }

  // ------------------------------------------------------- which fields are determined

  function Separators(text: string): nat {
    if text == "" then 0 else (if text[0] == '|' then 1 else 0) + Separators(text[1..])
  }

  lemma {:induction false} SeparatorsAdd(a: string, b: string)
    ensures Separators(a + b) == Separators(a) + Separators(b)
  {
    if a == "" {
      assert a + b == b;
    } else {
      SeparatorsAdd(a[1..], b);
      assert (a + b)[1..] == a[1..] + b;
    }
  }

  lemma {:induction false} NoSeparators(text: string)
    ensures Separators(text) == 0 <==> '|' !in text
  {
    if text != "" {
      NoSeparators(text[1..]);
      assert text == [text[0]] + text[1..];
    }
  }

  lemma JoinSeparators(a: string, b: string)
    ensures Separators(a + "|" + b) == Separators(a) + 1 + Separators(b)
  {
    SeparatorsAdd(a + "|", b);
    SeparatorsAdd(a, "|");
    assert Separators("|") == 1 + Separators("|"[1..]);
  }

  /** The joined fields before the details. */
  function Fields(e: Event): string {
    e.actor + "|" + e.action + "|" + e.resource + "|" + e.status
  }

  lemma FieldSeparators(e: Event)
    ensures Separators(Fields(e)) >= 3
    ensures Separators(Fields(e)) == 3 <==> SeparatorFree(e)
  {
    JoinSeparators(e.actor, e.action);
    JoinSeparators(e.actor + "|" + e.action, e.resource);
    JoinSeparators(e.actor + "|" + e.action + "|" + e.resource, e.status);
    NoSeparators(e.actor);
    NoSeparators(e.action);
    NoSeparators(e.resource);
    NoSeparators(e.status);
  }

  /** Of two joins with the same text, one side is the longer by a separator and what follows it. */
  lemma LongerJoin(a: string, b: string, a': string, b': string)
    requires a + "|" + b == a' + "|" + b' && |a| < |a'|
    ensures exists mid :: a' == a + "|" + mid && b == mid + "|" + b'
  {
    var text := a + "|" + b;
    var mid := a'[|a| + 1..];
    assert a' == text[..|a'|];
    assert a == text[..|a|] && text[|a|] == '|' && text[|a'|] == '|';
    assert a' == a + "|" + mid;
    assert b == text[|a| + 1..] && b' == text[|a'| + 1..];
    assert b == mid + "|" + b';
  }

  lemma SameFields(e: Event, e': Event)
    requires Body(e) == Body(e') && SeparatorFree(e) && JsonText(e.details) && JsonText(e'.details)
    ensures |Fields(e')| == |Fields(e)|
  {
    hide JsonText, Fields, Separators;
    assert Fields(e) + "|" + e.details == Fields(e') + "|" + e'.details by { BodyIsJoin(e); BodyIsJoin(e'); }
    FieldSeparators(e);
    FieldSeparators(e');
    if |Fields(e)| < |Fields(e')| {
      LongerJoin(Fields(e), e.details, Fields(e'), e'.details);
      var mid :| Fields(e') == Fields(e) + "|" + mid && e.details == mid + "|" + e'.details;
      NoJsonBehindSeparator(mid, e'.details);
    } else if |Fields(e')| < |Fields(e)| {
      LongerJoin(Fields(e'), e'.details, Fields(e), e.details);
      var mid :| Fields(e) == Fields(e') + "|" + mid && e'.details == mid + "|" + e.details;
      JoinSeparators(Fields(e'), mid);
    }
  }

  lemma BodyIsJoin(e: Event)
    ensures Body(e) == Fields(e) + "|" + e.details
  {
  }

  /** An event free of separators is the only one with its hashed text. */
  lemma BodyFixesEvent(e: Event, e': Event)
    requires Body(e) == Body(e') && SeparatorFree(e) && JsonText(e.details) && JsonText(e'.details)
    ensures e'.(timestamp := e.timestamp) == e
  {
    hide JsonText, Body, Fields, Separators;
    SameFields(e, e');
    BodyIsJoin(e);
    BodyIsJoin(e');
    assert Fields(e) == Body(e)[..|Fields(e)|] && Fields(e') == Body(e')[..|Fields(e')|];
    FieldSeparators(e);
    FieldSeparators(e');
    SameBody(e', e);
  }

  /** Another event with the same details and the same hashed text, which cuts the fields at another separator. */
  lemma Recut(e: Event) returns (e': Event)
    requires !SeparatorFree(e)
    ensures Body(e') == Body(e) && e'.timestamp == e.timestamp && e'.details == e.details && e' != e
  {
    if '|' in e.actor {
      var x, y := CutAtSeparator(e.actor);
      e' := e.(actor := x, action := y + "|" + e.action);
      assert Body(e') == Body(e);
    } else if '|' in e.action {
      var x, y := CutAtSeparator(e.action);
      e' := e.(action := x, resource := y + "|" + e.resource);
      assert Body(e') == Body(e);
    } else if '|' in e.resource {
      var x, y := CutAtSeparator(e.resource);
      e' := e.(resource := x, status := y + "|" + e.status);
      assert Body(e') == Body(e);
    } else {
      var x, y := CutAtSeparator(e.status);
      e' := e.(resource := e.resource + "|" + x, status := y);
      assert Body(e') == Body(e);
    }
  }

  lemma CutAtSeparator(text: string) returns (x: string, y: string)
    requires '|' in text
    ensures text == x + "|" + y
  {
    var i :| 0 <= i < |text| && text[i] == '|';
    x, y := text[..i], text[i + 1..];
  }

  /**
   Among events with JSON details, the hashed text determines every field exactly when actor, action,
   resource and status do not contain the separator; the details may.
   */
  lemma BodyFixesEventIff(e: Event)
    requires JsonText(e.details)
    ensures (forall e': Event :: JsonText(e'.details) && Body(e') == Body(e) ==> e'.(timestamp := e.timestamp) == e)
            <==> SeparatorFree(e)
  {
    hide Body, JsonText;
    if SeparatorFree(e) {
      forall e': Event | JsonText(e'.details) && Body(e') == Body(e) ensures e'.(timestamp := e.timestamp) == e {
        BodyFixesEvent(e, e');
      }
    } else {
      var e' := Recut(e);
      assert e'.(timestamp := e.timestamp) != e;
    }
  }

  ghost predicate SameEvents(a: seq<Record>, b: seq<Record>) {
    |a| == |b| && forall i :: 0 <= i < |a| ==> b[i].event.(timestamp := a[i].event.timestamp) == a[i].event
  }

  /** The details of every record are JSON, as those of every entry are. */
  ghost predicate JsonDetails(chain: seq<Record>) {
    forall i :: 0 <= i < |chain| ==> JsonText(chain[i].event.details)
  }

  /**
   The head also fixes every hashed field, when no separator occurs in actor, action, resource or status of one
   list; nothing is asked of the fields of the other, unless its details are not JSON.
   */
  lemma HeadFixesEvents(d: Digest, a: seq<Record>, b: seq<Record>)
    requires d.Lawful() && Chained(d, a) && Chained(d, b) && Head(a) == Head(b)
    requires CollisionFree(d, a, b)
    requires forall i :: 0 <= i < |a| ==> SeparatorFree(a[i].event)
    requires (JsonDetails(a) && JsonDetails(b)) || forall i :: 0 <= i < |b| ==> SeparatorFree(b[i].event)
    ensures SameEvents(a, b)
  {
    hide Body, Payload, Chained, CollisionFree, SeparatorFree, JsonText;
    HeadFixesChain(d, a, b);
    forall i | 0 <= i < |a| ensures b[i].event.(timestamp := a[i].event.timestamp) == a[i].event {
      assert SameText(d, a[i], b[i]);
      if JsonDetails(a) && JsonDetails(b) {
        BodyFixesEvent(a[i].event, b[i].event);
      } else {
        SameBody(b[i].event, a[i].event);
      }
    }
  }

  /**
   The head of a chain determines every field of every event, against all chains it does not collide
   with, exactly when no actor, action, resource or status in it contains the separator.
   */
  lemma HeadFixesEventsIff(d: Digest, a: seq<Record>)
    requires d.Lawful() && Chained(d, a) && CollisionFree(d, a, a) && JsonDetails(a)
    ensures (forall b: seq<Record> ::
               Chained(d, b) && JsonDetails(b) && Head(b) == Head(a) && CollisionFree(d, a, b) ==> SameEvents(a, b))
            <==> forall i :: 0 <= i < |a| ==> SeparatorFree(a[i].event)
  {
    hide Body, Payload, Chained, CollisionFree, SeparatorFree, JsonText;
    if forall i :: 0 <= i < |a| ==> SeparatorFree(a[i].event) {
      forall b: seq<Record> | Chained(d, b) && JsonDetails(b) && Head(b) == Head(a) && CollisionFree(d, a, b)
        ensures SameEvents(a, b)
      {
        HeadFixesEvents(d, a, b);
      }
    } else {
      var i :| 0 <= i < |a| && !SeparatorFree(a[i].event);
      var e' := Recut(a[i].event);
      var b := a[i := a[i].(event := e')];
      RecutChain(d, a, i, e');
      assert JsonDetails(b);
      assert !SameEvents(a, b);
    }
  }

  /** Replacing an event by one with the same hashed text leaves a chain with the same head. */
  lemma RecutChain(d: Digest, a: seq<Record>, i: nat, e': Event)
    requires Chained(d, a) && CollisionFree(d, a, a) && i < |a|
    requires Body(e') == Body(a[i].event) && e'.timestamp == a[i].event.timestamp
    ensures var b := a[i := a[i].(event := e')]; Chained(d, b) && Head(b) == Head(a) && CollisionFree(d, a, b)
  {
    hide Body;
    var b := a[i := a[i].(event := e')];
    forall k | 0 <= k < |a| ensures PayloadAt(d, b, k) == PayloadAt(d, a, k) && Linked(d, b, k) {
      assert Linked(d, a, k);
      assert HashBefore(b, k) == HashBefore(a, k);
    }
  }

  /** A separator inside a field makes two different events with the same details indistinguishable to the chain. */
  lemma SeparatorAmbiguity(d: Digest, prev: string, e: Event) returns (e': Event)
    requires !SeparatorFree(e)
    ensures e' != e && e'.details == e.details && e'.timestamp == e.timestamp
    ensures EntryHash(d, prev, e') == EntryHash(d, prev, e)
  {
    hide Body;
    e' := Recut(e);
  }

  /** The links of one chain have pairwise different hashes. */
  lemma {:induction false} HashesDistinct(d: Digest, chain: seq<Record>, i: nat, j: nat)
    requires d.Lawful() && Chained(d, chain) && CollisionFree(d, chain, chain)
    requires i < |chain| && j < |chain| && chain[i].hash == chain[j].hash
    ensures i == j
    decreases i + j
  {
    SameHash(d, chain, i, chain, j);
    LinkHash(d, chain, i);
    LinkHash(d, chain, j);
    if i > 0 && j > 0 {
      HashesDistinct(d, chain, i - 1, j - 1);
    }
  }
}
