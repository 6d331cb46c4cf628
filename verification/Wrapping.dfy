/**
 Single-use response wrapping as a protocol. Any number of nodes serve wrap,
 unwrap and lookup requests; each has a mutex and a local map of wrap metadata,
 and all share the cubbyhole that holds payloads. With `shared`, metadata also
 lives in a repository written by compare-and-set; without it each node keeps its
 own. Between the steps of one request, steps of any others may happen.

 Writes to the repository may also fail, and may take effect although the reply
 is lost; reads of it may fail, which the code takes for nothing being stored;
 removing a payload may fail unnoticed. Token ids are not reused, and garbage
 collection of expired metadata is not part of the model.
 */
module Wrapping {
  import opened Outcomes

  type NodeId = nat
  type RequestId = nat
  type TokenId = string
  type Payload = string

  const DEFAULT_TTL := 60
  const MAX_TTL := 3600

  function Ttl(requested: int): int {
    if requested <= 0 then DEFAULT_TTL else if requested > MAX_TTL then MAX_TTL else requested
  }

  /** Metadata as a node sees it; `cas` is the repository version it was read at. */
  datatype Meta = Meta(expiresAt: int, used: bool, cas: Option<nat>)

  /** Metadata as the repository holds it: the latest version and its content. */
  datatype Stored = Stored(version: nat, expiresAt: int, used: bool)

  datatype Node = Node(lock: Option<RequestId>, wraps: map<TokenId, Meta>)

  /** How far a request has come. */
  datatype Phase =
    | PayloadPut(expiresAt: int)              // wrap: payload stored, metadata not yet
    | MetaFailed                              // wrap: metadata refused, payload to be removed
    | WrapDone
    | WrapAborted
    | MetaRead(meta: Meta)                    // unwrap: holds the node's lock
    | Marked(checkedAt: int)                  // unwrap: marked used, lock released
    | Fetched(checkedAt: int, payload: Payload)
    | Returned(checkedAt: int, payload: Payload)
    | Refused
    | LookedUp

  datatype Request = Request(node: NodeId, id: TokenId, phase: Phase) {
    /** Marked the token used, and so may return, or has returned, the payload. */
    predicate Winner() {
      phase.Marked? || phase.Fetched? || phase.Returned?
    }
  }

  /** What a wrap request was asked to protect. */
  datatype Mint = Mint(request: RequestId, node: NodeId, payload: Payload, expiresAt: int)

  datatype State = State(
    nodes: map<NodeId, Node>, repo: map<TokenId, Stored>, cubby: map<TokenId, Payload>,
    requests: map<RequestId, Request>, minted: map<TokenId, Mint>)

  datatype Write = Applied | Failed | ReplyLost

  datatype Step =
    | StartWrap(q: RequestId, n: NodeId, id: TokenId, payload: Payload, now: int, ttl: int)
    | PutMeta(q: RequestId, write: Write)
    | DropPayload(q: RequestId, fails: bool)
    | ReadMeta(q: RequestId, n: NodeId, id: TokenId, fails: bool)
    | MarkUsed(q: RequestId, now: int, write: Write)
    | Fetch(q: RequestId, fails: bool)
    | Finish(q: RequestId, fails: bool)
    | Lookup(q: RequestId, n: NodeId, id: TokenId, fails: bool)

  function SetNode(s: State, n: NodeId, node: Node): State {
    s.(nodes := s.nodes[n := node])
  }

  function SetPhase(s: State, q: RequestId, phase: Phase): State
    requires q in s.requests
  {
    s.(requests := s.requests[q := s.requests[q].(phase := phase)])
  }

  /** The next version of a path; only the latest one is kept. */
  function NextVersion(repo: map<TokenId, Stored>, id: TokenId): nat {
    if id in repo then repo[id].version + 1 else 1
  }

  /** Whether compare-and-set lets a write through. */
  predicate CasPasses(repo: map<TokenId, Stored>, id: TokenId, cas: Option<nat>) {
    cas.None? || (id in repo && repo[id].version == cas.value)
  }

  /**
   What a node learns about a token: the repository first, its own map when nothing is stored. A read of the
   repository that fails (`shared` false) is taken for nothing being stored.
   */
  function KnownTo(shared: bool, wraps: map<TokenId, Meta>, repo: map<TokenId, Stored>, id: TokenId): Option<Meta> {
    if shared && id in repo then Some(Meta(repo[id].expiresAt, repo[id].used, Some(repo[id].version)))
    else if id in wraps then Some(wraps[id])
    else None
  }

  function Known(shared: bool, s: State, n: NodeId, id: TokenId): Option<Meta>
    requires n in s.nodes
  {
    KnownTo(shared, s.nodes[n].wraps, s.repo, id)
  }

  /** A wrap request stores its payload under a token id never used before. */
  function DoStartWrap(s: State, q: RequestId, n: NodeId, id: TokenId, payload: Payload, now: int, ttl: int): State {
    if q in s.requests || n !in s.nodes || id in s.minted || payload == "" then s
    else
      s.(cubby := s.cubby[id := payload],
         minted := s.minted[id := Mint(q, n, payload, now + Ttl(ttl))],
         requests := s.requests[q := Request(n, id, PayloadPut(now + Ttl(ttl)))])
  }

  /** It then writes the metadata under its node's lock. */
  function DoPutMeta(shared: bool, s: State, q: RequestId, write: Write): State {
    if q !in s.requests || !s.requests[q].phase.PayloadPut? then s
    else
      var r := s.requests[q];
      if r.node !in s.nodes || s.nodes[r.node].lock.Some? then s
      else
        var exp := r.phase.expiresAt;
        var node := s.nodes[r.node];
        var s1 := SetNode(s, r.node, node.(wraps := node.wraps[r.id := Meta(exp, false, None)]));
        var s2 := if shared && !write.Failed?
                  then s1.(repo := s1.repo[r.id := Stored(NextVersion(s1.repo, r.id), exp, false)]) else s1;
        SetPhase(s2, q, if shared && !write.Applied? then MetaFailed else WrapDone)
  }

  /** The cubbyhole after removing a payload, which may fail unnoticed. */
  function Removed(cubby: map<TokenId, Payload>, id: TokenId, fails: bool): map<TokenId, Payload> {
    if fails then cubby else cubby - {id}
  }

  /** If that failed, it removes the payload again. */
  function DoDropPayload(s: State, q: RequestId, fails: bool): State {
    if q !in s.requests || !s.requests[q].phase.MetaFailed? then s
    else SetPhase(s.(cubby := Removed(s.cubby, s.requests[q].id, fails)), q, WrapAborted)
  }

  /** An unwrap request takes its node's lock and reads the metadata. */
  function DoReadMeta(shared: bool, s: State, q: RequestId, n: NodeId, id: TokenId, fails: bool): State {
    if q in s.requests || n !in s.nodes || s.nodes[n].lock.Some? then s
    else
      var meta := Known(shared && !fails, s, n, id);
      if meta.None? then s.(requests := s.requests[q := Request(n, id, Refused)])
      else
        SetNode(s, n, Node(Some(q), s.nodes[n].wraps[id := meta.value]))
        .(requests := s.requests[q := Request(n, id, MetaRead(meta.value))])
  }

  /** It checks what it read, marks the token used and releases the lock. */
  function DoMarkUsed(shared: bool, s: State, q: RequestId, now: int, write: Write): State {
    if q !in s.requests || !s.requests[q].phase.MetaRead? || s.requests[q].node !in s.nodes then s
    else
      var r := s.requests[q];
      var meta := r.phase.meta;
      var node := s.nodes[r.node].(lock := None);
      if meta.used || now > meta.expiresAt then SetPhase(SetNode(s, r.node, node), q, Refused)
      else
        var s1 := SetNode(s, r.node, node.(wraps := node.wraps[r.id := meta.(used := true)]));
        if !shared then SetPhase(s1, q, Marked(now))
        else if write.Failed? || !CasPasses(s1.repo, r.id, meta.cas) then SetPhase(s1, q, Refused)
        else
          var s2 := s1.(repo := s1.repo[r.id := Stored(NextVersion(s1.repo, r.id), meta.expiresAt, true)]);
          SetPhase(s2, q, if write.Applied? then Marked(now) else Refused)
  }

  /** Having marked the token, it reads the payload, */
  function DoFetch(s: State, q: RequestId, fails: bool): State {
    if q !in s.requests || !s.requests[q].phase.Marked? then s
    else
      var r := s.requests[q];
      if fails || r.id !in s.cubby then SetPhase(s, q, Refused)
      else SetPhase(s, q, Fetched(r.phase.checkedAt, s.cubby[r.id]))
  }

  /** ... removes it and returns it. */
  function DoFinish(s: State, q: RequestId, fails: bool): State {
    if q !in s.requests || !s.requests[q].phase.Fetched? then s
    else
      var r := s.requests[q];
      SetPhase(s.(cubby := Removed(s.cubby, r.id, fails)), q, Returned(r.phase.checkedAt, r.phase.payload))
  }

  /** A lookup reads the metadata under the lock and returns it. */
  function DoLookup(shared: bool, s: State, q: RequestId, n: NodeId, id: TokenId, fails: bool): State {
    if q in s.requests || n !in s.nodes || s.nodes[n].lock.Some? then s
    else
      var meta := Known(shared && !fails, s, n, id);
      var s1 := if meta.None? then s
                else SetNode(s, n, s.nodes[n].(wraps := s.nodes[n].wraps[id := meta.value]));
      s1.(requests := s1.requests[q := Request(n, id, LookedUp)])
  }

  /** One step of some request. A step that is not enabled changes nothing. */
  function Next(shared: bool, s: State, step: Step): State {
    match step
    case StartWrap(q, n, id, payload, now, ttl) => DoStartWrap(s, q, n, id, payload, now, ttl)
    case PutMeta(q, write) => DoPutMeta(shared, s, q, write)
    case DropPayload(q, fails) => DoDropPayload(s, q, fails)
    case ReadMeta(q, n, id, fails) => DoReadMeta(shared, s, q, n, id, fails)
    case MarkUsed(q, now, write) => DoMarkUsed(shared, s, q, now, write)
    case Fetch(q, fails) => DoFetch(s, q, fails)
    case Finish(q, fails) => DoFinish(s, q, fails)
    case Lookup(q, n, id, fails) => DoLookup(shared, s, q, n, id, fails)
  }

  /** All nodes start with free locks and nothing is stored. */
  function Start(nodes: set<NodeId>): State {
    State(map n | n in nodes :: Node(None, map[]), map[], map[], map[], map[])
  }

  function After(shared: bool, nodes: set<NodeId>, steps: seq<Step>): State {
    if steps == [] then Start(nodes)
    else Next(shared, After(shared, nodes, steps[..|steps| - 1]), steps[|steps| - 1])
  }

  // ------------------------------------------------------------------ invariant

  type Nodes = map<NodeId, Node>
  type Repo = map<TokenId, Stored>
  type Mints = map<TokenId, Mint>

  /** Whether the metadata that counts says the token is used: the repository's, or the minting node's. */
  ghost predicate UsedUp(nodes: Nodes, repo: Repo, minted: Mints, id: TokenId) {
    && id in minted
    && if id in repo then repo[id].used
       else minted[id].node in nodes && id in nodes[minted[id].node].wraps && nodes[minted[id].node].wraps[id].used
  }

  /** Stored metadata and payloads come from a wrap request. */
  ghost predicate Provenance(shared: bool, repo: Repo, cubby: map<TokenId, Payload>, minted: Mints) {
    && (forall id :: id in repo ==> shared && id in minted && repo[id].expiresAt == minted[id].expiresAt)
    && (forall id :: id in cubby ==> id in minted && cubby[id] == minted[id].payload)
  }

  /** A node's copy is what it wrote itself, or what the repository held at the version noted or is marked used. */
  ghost predicate GoodCopy(repo: Repo, minted: Mints, n: NodeId, id: TokenId, meta: Meta) {
    && id in minted && meta.expiresAt == minted[id].expiresAt
    && (id !in repo ==> minted[id].node == n && meta.cas.None?)
    && (meta.cas.Some? ==> id in repo && meta.cas.value <= repo[id].version)
    && (meta.cas.Some? && meta.cas.value == repo[id].version && !meta.used ==> !repo[id].used)
  }

  ghost predicate Copies(nodes: Nodes, repo: Repo, minted: Mints) {
    forall n, id :: n in nodes && id in nodes[n].wraps ==> GoodCopy(repo, minted, n, id, nodes[n].wraps[id])
  }

  /** A wrap request that has not written metadata yet is the only one that knows its token. */
  ghost predicate FreshToken(nodes: Nodes, repo: Repo, minted: Mints, q: RequestId, r: Request)
    requires r.phase.PayloadPut?
  {
    && r.id in minted && minted[r.id].request == q && minted[r.id].node == r.node
    && minted[r.id].expiresAt == r.phase.expiresAt
    && r.id !in repo && forall n :: n in nodes ==> r.id !in nodes[n].wraps
  }

  /** What an unwrap request has read from the repository is still what counts, or its compare-and-set will fail. */
  ghost predicate CurrentRead(nodes: Nodes, repo: Repo, minted: Mints, r: Request)
    requires r.phase.MetaRead?
  {
    && GoodCopy(repo, minted, r.node, r.id, r.phase.meta)
    && (r.id !in repo ==>
          r.node in nodes && r.id in nodes[r.node].wraps && nodes[r.node].wraps[r.id] == r.phase.meta)
  }

  /** A winner's token is used up, was checked in time, and its payload is the one wrapped. */
  ghost predicate FairWin(nodes: Nodes, repo: Repo, minted: Mints, r: Request)
    requires r.Winner()
  {
    && UsedUp(nodes, repo, minted, r.id) && r.phase.checkedAt <= minted[r.id].expiresAt
    && (!r.phase.Marked? ==> r.phase.payload == minted[r.id].payload)
  }

  /** What each request may rely on. While an unwrap has read and not yet marked, it holds its node's lock. */
  ghost predicate Good(nodes: Nodes, repo: Repo, minted: Mints, q: RequestId, r: Request) {
    && r.node in nodes
    && (r.phase.PayloadPut? ==> FreshToken(nodes, repo, minted, q, r))
    && (r.phase.MetaRead? ==> nodes[r.node].lock == Some(q) && CurrentRead(nodes, repo, minted, r))
    && (r.Winner() ==> FairWin(nodes, repo, minted, r))
  }

  ghost predicate OneWinner(requests: map<RequestId, Request>) {
    forall q, q' ::
      (q in requests && q' in requests && requests[q].Winner() && requests[q'].Winner()
       && requests[q].id == requests[q'].id) ==> q == q'
  }

  ghost predicate AllGood(s: State) {
    forall q :: q in s.requests ==> Good(s.nodes, s.repo, s.minted, q, s.requests[q])
  }

  ghost predicate Inv(shared: bool, s: State) {
    && Provenance(shared, s.repo, s.cubby, s.minted)
    && Copies(s.nodes, s.repo, s.minted)
    && AllGood(s)
  }

  /** No unwrap request relies on an unused copy without a version of a token that is stored. */
  ghost predicate NoBlindRead(repo: Repo, requests: map<RequestId, Request>) {
    forall q :: q in requests && requests[q].phase.MetaRead? ==> !Blind(repo, requests[q].id, requests[q].phase.meta)
  }

  /** The node's own note from wrapping, which says nothing about what has happened since. */
  ghost predicate Blind(repo: Repo, id: TokenId, meta: Meta) {
    id in repo && meta.cas.None? && !meta.used
  }

  ghost predicate Exclusive(s: State) {
    OneWinner(s.requests) && NoBlindRead(s.repo, s.requests)
  }

  // ------------------------------------------------------------ what a step leaves

  lemma MintedGrows(s: State, q: RequestId, r: Request, id: TokenId, mint: Mint)
    requires Good(s.nodes, s.repo, s.minted, q, r) && id !in s.minted
    ensures Good(s.nodes, s.repo, s.minted[id := mint], q, r)
  {
  }

  /** Changes confined to another token, with the request's lock kept, leave it as good. */
  lemma OtherToken(s: State, nodes': Nodes, repo': Repo, q: RequestId, r: Request, id: TokenId)
    requires Good(s.nodes, s.repo, s.minted, q, r) && r.id != id
    requires nodes'.Keys == s.nodes.Keys
    requires forall n :: n in s.nodes ==> (r.id in nodes'[n].wraps <==> r.id in s.nodes[n].wraps)
    requires forall n :: n in s.nodes && r.id in s.nodes[n].wraps ==> nodes'[n].wraps[r.id] == s.nodes[n].wraps[r.id]
    requires r.id in repo' <==> r.id in s.repo
    requires r.id in s.repo ==> repo'[r.id] == s.repo[r.id]
    requires r.phase.MetaRead? ==> nodes'[r.node].lock == s.nodes[r.node].lock
    ensures Good(nodes', repo', s.minted, q, r)
  {
  }

  lemma StartWrapKeeps(shared: bool, s: State, step: Step)
    requires Inv(shared, s) && step.StartWrap?
    ensures Inv(shared, Next(shared, s, step))
  {
    hide Good;
    var s' := Next(shared, s, step);
    if s' != s {
      forall q | q in s'.requests ensures Good(s'.nodes, s'.repo, s'.minted, q, s'.requests[q]) {
        if q != step.q {
          MintedGrows(s, q, s.requests[q], step.id, s'.minted[step.id]);
        } else {
          NewTokenIsFresh(shared, s, step);
        }
      }
    }
  }

  lemma NewTokenIsFresh(shared: bool, s: State, step: Step)
    requires Inv(shared, s) && step.StartWrap? && step.id !in s.minted && step.n in s.nodes
    ensures var mint := Mint(step.q, step.n, step.payload, step.now + Ttl(step.ttl));
            Good(s.nodes, s.repo, s.minted[step.id := mint], step.q,
                 Request(step.n, step.id, PayloadPut(step.now + Ttl(step.ttl))))
  {
    hide AllGood;
  }

  /** Writing a request in a phase that is neither waiting nor winning costs nothing. */
  lemma NeutralRequest(shared: bool, s: State, q: RequestId, r: Request)
    requires Inv(shared, s) && r.node in s.nodes
    requires !r.phase.PayloadPut? && !r.phase.MetaRead? && !r.Winner()
    ensures Inv(shared, s.(requests := s.requests[q := r]))
  {
    hide FreshToken, CurrentRead, FairWin, Provenance, Copies;
  }

  lemma ForgetPayload(shared: bool, s: State, id: TokenId)
    requires Inv(shared, s)
    ensures Inv(shared, s.(cubby := s.cubby - {id}))
  {
    hide Good, Copies;
  }

  /** Remembering locally what the repository says, or what is already remembered, changes nothing that counts. */
  lemma CachedIsGood(stored: bool, s: State, n: NodeId, id: TokenId, meta: Meta, lock: Option<RequestId>,
                     q: RequestId, r: Request)
    requires n in s.nodes && s.nodes[n].lock.None? && Known(stored, s, n, id) == Some(meta)
    requires Good(s.nodes, s.repo, s.minted, q, r)
    ensures Good(s.nodes[n := Node(lock, s.nodes[n].wraps[id := meta])], s.repo, s.minted, q, r)
  {
    var nodes' := s.nodes[n := Node(lock, s.nodes[n].wraps[id := meta])];
    if r.id != id {
      OtherToken(s, nodes', s.repo, q, r, id);
    }
  }

  lemma CacheKeeps(shared: bool, stored: bool, s: State, n: NodeId, id: TokenId, meta: Meta, lock: Option<RequestId>)
    requires Inv(shared, s) && n in s.nodes && s.nodes[n].lock.None? && Known(stored, s, n, id) == Some(meta)
    ensures Inv(shared, SetNode(s, n, Node(lock, s.nodes[n].wraps[id := meta])))
  {
    hide Good, Provenance;
    var s' := SetNode(s, n, Node(lock, s.nodes[n].wraps[id := meta]));
    forall q | q in s'.requests ensures Good(s'.nodes, s'.repo, s'.minted, q, s'.requests[q]) {
      assert Good(s.nodes, s.repo, s.minted, q, s.requests[q]);
      CachedIsGood(stored, s, n, id, meta, lock, q, s.requests[q]);
    }
    CacheIsLocal(shared, stored, s, n, id, meta, lock);
  }

  lemma CacheIsLocal(shared: bool, stored: bool, s: State, n: NodeId, id: TokenId, meta: Meta, lock: Option<RequestId>)
    requires Provenance(shared, s.repo, s.cubby, s.minted) && Copies(s.nodes, s.repo, s.minted)
    requires n in s.nodes && Known(stored, s, n, id) == Some(meta)
    ensures Copies(s.nodes[n := Node(lock, s.nodes[n].wraps[id := meta])], s.repo, s.minted)
  {
  }

  lemma LookupKeeps(shared: bool, s: State, step: Step)
    requires Inv(shared, s) && step.Lookup?
    ensures Inv(shared, Next(shared, s, step))
  {
    hide Inv;
    if step.q !in s.requests && step.n in s.nodes && s.nodes[step.n].lock.None? {
      var meta := Known(shared && !step.fails, s, step.n, step.id);
      var s1 := s;
      if meta.Some? {
        CacheKeeps(shared, shared && !step.fails, s, step.n, step.id, meta.value, None);
        s1 := SetNode(s, step.n, Node(None, s.nodes[step.n].wraps[step.id := meta.value]));
      }
      NeutralRequest(shared, s1, step.q, Request(step.n, step.id, LookedUp));
    }
  }

  lemma ReadMetaKeeps(shared: bool, s: State, step: Step)
    requires Inv(shared, s) && step.ReadMeta?
    ensures Inv(shared, Next(shared, s, step))
  {
    if step.q !in s.requests && step.n in s.nodes && s.nodes[step.n].lock.None? {
      var meta := Known(shared && !step.fails, s, step.n, step.id);
      if meta.None? {
        NeutralRequest(shared, s, step.q, Request(step.n, step.id, Refused));
      } else {
        CacheKeeps(shared, shared && !step.fails, s, step.n, step.id, meta.value, Some(step.q));
        var s1 := SetNode(s, step.n, Node(Some(step.q), s.nodes[step.n].wraps[step.id := meta.value]));
        ReadIsCurrent(shared, shared && !step.fails, s, step.n, step.id, meta.value, step.q);
        NewRequest(shared, s1, step.q, Request(step.n, step.id, MetaRead(meta.value)));
      }
    }
  }

  lemma ReadIsCurrent(shared: bool, stored: bool, s: State, n: NodeId, id: TokenId, meta: Meta, q: RequestId)
    requires Provenance(shared, s.repo, s.cubby, s.minted) && Copies(s.nodes, s.repo, s.minted)
    requires n in s.nodes && Known(stored, s, n, id) == Some(meta)
    ensures Good(s.nodes[n := Node(Some(q), s.nodes[n].wraps[id := meta])], s.repo, s.minted, q,
                 Request(n, id, MetaRead(meta)))
  {
  }

  /** A request that is good and does not win can be added or moved on. */
  lemma NewRequest(shared: bool, s: State, q: RequestId, r: Request)
    requires Inv(shared, s) && Good(s.nodes, s.repo, s.minted, q, r) && !r.Winner()
    ensures Inv(shared, s.(requests := s.requests[q := r]))
  {
    hide FreshToken, CurrentRead, FairWin, Provenance, Copies;
  }

  lemma PutMetaKeeps(shared: bool, s: State, step: Step)
    requires Inv(shared, s) && step.PutMeta?
    ensures Inv(shared, Next(shared, s, step))
  {
    if step.q in s.requests && s.requests[step.q].phase.PayloadPut? {
      var r := s.requests[step.q];
      assert Good(s.nodes, s.repo, s.minted, step.q, r);
      if s.nodes[r.node].lock.None? {
        MetaWritten(shared, s, step.q, shared && !step.write.Failed?, shared && !step.write.Applied?);
      }
    }
  }

  /** The state with the node's view of a token, and possibly the repository's, rewritten. */
  function Rewritten(s: State, n: NodeId, lock: Option<RequestId>, id: TokenId, meta: Meta,
                     stored: Option<Stored>): State
    requires n in s.nodes
  {
    SetNode(s, n, Node(lock, s.nodes[n].wraps[id := meta]))
    .(repo := if stored.Some? then s.repo[id := stored.value] else s.repo)
  }

  lemma RewrittenElsewhere(s: State, n: NodeId, lock: Option<RequestId>, id: TokenId, meta: Meta,
                           stored: Option<Stored>,
                           q: RequestId, r: Request)
    requires n in s.nodes && Good(s.nodes, s.repo, s.minted, q, r) && r.id != id
    requires s.nodes[n].lock != Some(q)
    ensures var s' := Rewritten(s, n, lock, id, meta, stored); Good(s'.nodes, s'.repo, s.minted, q, r)
  {
    var s' := Rewritten(s, n, lock, id, meta, stored);
    OtherToken(s, s'.nodes, s'.repo, q, r, id);
  }

  /** Metadata written for the first time: no other request can know the token. */
  lemma FirstMetaElsewhere(s: State, q0: RequestId, r0: Request, meta: Meta, stored: Option<Stored>, q: RequestId,
                           r: Request)
    requires Good(s.nodes, s.repo, s.minted, q0, r0) && r0.phase.PayloadPut? && s.nodes[r0.node].lock.None?
    requires Good(s.nodes, s.repo, s.minted, q, r) && q != q0
    ensures var s' := Rewritten(s, r0.node, None, r0.id, meta, stored); Good(s'.nodes, s'.repo, s.minted, q, r)
  {
    if r.id != r0.id {
      RewrittenElsewhere(s, r0.node, None, r0.id, meta, stored, q, r);
    }
  }

  lemma MetaWritten(shared: bool, s: State, q: RequestId, stored: bool, failed: bool)
    requires Inv(shared, s) && q in s.requests && s.requests[q].phase.PayloadPut?
    requires var r := s.requests[q]; (stored ==> shared) && r.node in s.nodes && s.nodes[r.node].lock.None?
    ensures var r := s.requests[q];
            var exp := r.phase.expiresAt;
            var record := if stored then Some(Stored(NextVersion(s.repo, r.id), exp, false)) else None;
            var s' := Rewritten(s, r.node, None, r.id, Meta(exp, false, None), record);
            Inv(shared, SetPhase(s', q, if failed then MetaFailed else WrapDone))
  {
    hide Good;
    var r := s.requests[q];
    var exp := r.phase.expiresAt;
    var record := if stored then Some(Stored(NextVersion(s.repo, r.id), exp, false)) else None;
    var s1 := Rewritten(s, r.node, None, r.id, Meta(exp, false, None), record);
    var s' := SetPhase(s1, q, if failed then MetaFailed else WrapDone);
    assert Good(s.nodes, s.repo, s.minted, q, r);
    forall p | p in s'.requests ensures Good(s'.nodes, s'.repo, s'.minted, p, s'.requests[p]) {
      if p != q {
        FirstMetaElsewhere(s, q, r, Meta(exp, false, None), record, p, s.requests[p]);
      } else {
        NeutralIsGood(s'.nodes, s'.repo, s'.minted, q, s'.requests[q]);
      }
    }
    FirstMetaIsLocal(shared, s, q, r, stored);
  }

  lemma NeutralIsGood(nodes: Nodes, repo: Repo, minted: Mints, q: RequestId, r: Request)
    requires r.node in nodes && !r.phase.PayloadPut? && !r.phase.MetaRead? && !r.Winner()
    ensures Good(nodes, repo, minted, q, r)
  {
  }

  lemma FirstMetaIsLocal(shared: bool, s: State, q: RequestId, r: Request, stored: bool)
    requires Provenance(shared, s.repo, s.cubby, s.minted) && Copies(s.nodes, s.repo, s.minted)
    requires Good(s.nodes, s.repo, s.minted, q, r) && r.phase.PayloadPut? && (stored ==> shared)
    ensures var record := if stored then Some(Stored(NextVersion(s.repo, r.id), r.phase.expiresAt, false)) else None;
            var s' := Rewritten(s, r.node, None, r.id, Meta(r.phase.expiresAt, false, None), record);
            Provenance(shared, s'.repo, s'.cubby, s'.minted) && Copies(s'.nodes, s'.repo, s'.minted)
  {
  }

  // ------------------------------------------------------------- marking as used

  /** The metadata an unwrap request is about to write. */
  function UsedMeta(r: Request): Meta
    requires r.phase.MetaRead?
  {
    r.phase.meta.(used := true)
  }

  /** Marking leaves every other request good, whether or not the repository took the write. */
  lemma MarkedElsewhere(shared: bool, s: State, q0: RequestId, r0: Request, stored: Option<Stored>, q: RequestId,
                        r: Request)
    requires Copies(s.nodes, s.repo, s.minted) && Provenance(shared, s.repo, s.cubby, s.minted)
    requires Good(s.nodes, s.repo, s.minted, q0, r0) && r0.phase.MetaRead?
    requires Good(s.nodes, s.repo, s.minted, q, r) && q != q0
    requires stored.Some? ==> stored.value.used && stored.value.version == NextVersion(s.repo, r0.id)
    ensures var s' := Rewritten(s, r0.node, None, r0.id, UsedMeta(r0), stored); Good(s'.nodes, s'.repo, s.minted, q, r)
  {
    if r.id != r0.id {
      RewrittenElsewhere(s, r0.node, None, r0.id, UsedMeta(r0), stored, q, r);
    }
  }

  lemma MarkedIsLocal(shared: bool, s: State, q: RequestId, r: Request, stored: Option<Stored>)
    requires Copies(s.nodes, s.repo, s.minted) && Provenance(shared, s.repo, s.cubby, s.minted)
    requires Good(s.nodes, s.repo, s.minted, q, r) && r.phase.MetaRead?
    requires stored.Some? ==> shared && stored.value == Stored(NextVersion(s.repo, r.id), r.phase.meta.expiresAt, true)
    ensures var s' := Rewritten(s, r.node, None, r.id, UsedMeta(r), stored);
            Provenance(shared, s'.repo, s'.cubby, s'.minted) && Copies(s'.nodes, s'.repo, s'.minted)
  {
  }

  /** The write happened, or was refused, and the request has no claim: it was refused or lost the reply. */
  lemma MarkWithoutWin(shared: bool, s: State, q: RequestId, stored: Option<Stored>)
    requires Inv(shared, s) && q in s.requests && s.requests[q].phase.MetaRead? && s.requests[q].node in s.nodes
    requires stored.Some? ==>
               shared && stored.value == Stored(NextVersion(s.repo, s.requests[q].id),
                                                s.requests[q].phase.meta.expiresAt, true)
    ensures var r := s.requests[q];
            Inv(shared, SetPhase(Rewritten(s, r.node, None, r.id, UsedMeta(r), stored), q, Refused))
  {
    hide Good, Copies, Provenance;
    var r := s.requests[q];
    var s' := SetPhase(Rewritten(s, r.node, None, r.id, UsedMeta(r), stored), q, Refused);
    assert Good(s.nodes, s.repo, s.minted, q, r);
    forall p | p in s'.requests ensures Good(s'.nodes, s'.repo, s'.minted, p, s'.requests[p]) {
      if p != q {
        MarkedElsewhere(shared, s, q, r, stored, p, s.requests[p]);
      } else {
        NeutralIsGood(s'.nodes, s'.repo, s'.minted, q, s'.requests[q]);
      }
    }
    MarkedIsLocal(shared, s, q, r, stored);
  }

  lemma MarkWins(shared: bool, s: State, q: RequestId, stored: Option<Stored>, now: int)
    requires Inv(shared, s) && q in s.requests && s.requests[q].phase.MetaRead? && s.requests[q].node in s.nodes
    requires var r := s.requests[q];
             !r.phase.meta.used && now <= r.phase.meta.expiresAt && CasPasses(s.repo, r.id, r.phase.meta.cas)
    requires stored.Some? == shared
    requires stored.Some? ==>
               stored.value == Stored(NextVersion(s.repo, s.requests[q].id), s.requests[q].phase.meta.expiresAt, true)
    ensures var r := s.requests[q];
            Inv(shared, SetPhase(Rewritten(s, r.node, None, r.id, UsedMeta(r), stored), q, Marked(now)))
  {
    hide Good, Copies, Provenance;
    var r := s.requests[q];
    var s' := SetPhase(Rewritten(s, r.node, None, r.id, UsedMeta(r), stored), q, Marked(now));
    assert Good(s.nodes, s.repo, s.minted, q, r);
    forall p | p in s'.requests ensures Good(s'.nodes, s'.repo, s'.minted, p, s'.requests[p]) {
      if p != q {
        MarkedElsewhere(shared, s, q, r, stored, p, s.requests[p]);
      } else {
        WinIsFair(shared, s, q, r, stored, now);
      }
    }
    MarkedIsLocal(shared, s, q, r, stored);
  }

  lemma WinIsFair(shared: bool, s: State, q: RequestId, r: Request, stored: Option<Stored>, now: int)
    requires Copies(s.nodes, s.repo, s.minted) && Provenance(shared, s.repo, s.cubby, s.minted)
    requires Good(s.nodes, s.repo, s.minted, q, r) && r.phase.MetaRead? && now <= r.phase.meta.expiresAt
    requires stored.Some? == shared && (stored.Some? ==> stored.value.used)
    ensures var s' := Rewritten(s, r.node, None, r.id, UsedMeta(r), stored);
            Good(s'.nodes, s'.repo, s'.minted, q, r.(phase := Marked(now)))
  {
  }

  /** Releasing the lock without writing. */
  lemma ReleaseKeeps(shared: bool, s: State, q: RequestId)
    requires Inv(shared, s) && q in s.requests && s.requests[q].phase.MetaRead? && s.requests[q].node in s.nodes
    ensures var r := s.requests[q];
            Inv(shared, SetPhase(SetNode(s, r.node, s.nodes[r.node].(lock := None)), q, Refused))
  {
    hide FreshToken, FairWin, Provenance;
    var r := s.requests[q];
    var s' := SetPhase(SetNode(s, r.node, s.nodes[r.node].(lock := None)), q, Refused);
    assert Good(s.nodes, s.repo, s.minted, q, r);
    forall p | p in s'.requests ensures Good(s'.nodes, s'.repo, s'.minted, p, s'.requests[p]) {
      if p != q { ReleasedElsewhere(s, q, r, p, s.requests[p]); }
    }
  }

  lemma ReleasedElsewhere(s: State, q0: RequestId, r0: Request, q: RequestId, r: Request)
    requires r0.node in s.nodes && s.nodes[r0.node].lock == Some(q0)
    requires Good(s.nodes, s.repo, s.minted, q, r) && q != q0
    ensures Good(s.nodes[r0.node := s.nodes[r0.node].(lock := None)], s.repo, s.minted, q, r)
  {
  }

  lemma MarkUsedKeeps(shared: bool, s: State, step: Step)
    requires Inv(shared, s) && step.MarkUsed?
    ensures Inv(shared, Next(shared, s, step))
  {
    hide Inv;
    var q := step.q;
    if q in s.requests && s.requests[q].phase.MetaRead? && s.requests[q].node in s.nodes {
      var r := s.requests[q];
      var meta := r.phase.meta;
      var record := Some(Stored(NextVersion(s.repo, r.id), meta.expiresAt, true));
      if meta.used || step.now > meta.expiresAt {
        ReleaseKeeps(shared, s, q);
      } else if !shared {
        LocalCasPasses(shared, s, q);
        MarkWins(shared, s, q, None, step.now);
      } else if step.write.Failed? || !CasPasses(s.repo, r.id, meta.cas) {
        MarkWithoutWin(shared, s, q, None);
      } else if step.write.Applied? {
        MarkWins(shared, s, q, record, step.now);
      } else {
        MarkWithoutWin(shared, s, q, record);
      }
    }
  }

  lemma LocalCasPasses(shared: bool, s: State, q: RequestId)
    requires Inv(shared, s) && q in s.requests && s.requests[q].phase.MetaRead?
    ensures !shared ==> CasPasses(s.repo, s.requests[q].id, s.requests[q].phase.meta.cas)
  {
    assert Good(s.nodes, s.repo, s.minted, q, s.requests[q]);
  }

  // ---------------------------------------------------------- fetching, returning

  lemma DropPayloadKeeps(shared: bool, s: State, step: Step)
    requires Inv(shared, s) && step.DropPayload?
    ensures Inv(shared, Next(shared, s, step))
  {
    if step.q in s.requests && s.requests[step.q].phase.MetaFailed? {
      var r := s.requests[step.q];
      assert Good(s.nodes, s.repo, s.minted, step.q, r);
      ForgetPayload(shared, s, r.id);
      NeutralRequest(shared, s.(cubby := Removed(s.cubby, r.id, step.fails)), step.q, r.(phase := WrapAborted));
    }
  }

  /** A winner moving on keeps its claim and its check time. */
  lemma WinnerMoves(shared: bool, s: State, q: RequestId, phase: Phase)
    requires Inv(shared, s) && q in s.requests && s.requests[q].Winner()
    requires phase.Fetched? || phase.Returned?
    requires phase.checkedAt == s.requests[q].phase.checkedAt
    requires s.requests[q].id in s.minted ==> phase.payload == s.minted[s.requests[q].id].payload
    ensures Inv(shared, SetPhase(s, q, phase))
  {
    hide FreshToken, CurrentRead, Provenance, Copies;
    assert Good(s.nodes, s.repo, s.minted, q, s.requests[q]);
  }

  lemma FetchKeeps(shared: bool, s: State, step: Step)
    requires Inv(shared, s) && step.Fetch?
    ensures Inv(shared, Next(shared, s, step))
  {
    if step.q in s.requests && s.requests[step.q].phase.Marked? {
      var r := s.requests[step.q];
      assert Good(s.nodes, s.repo, s.minted, step.q, r);
      if step.fails || r.id !in s.cubby {
        NeutralRequest(shared, s, step.q, r.(phase := Refused));
      } else {
        WinnerMoves(shared, s, step.q, Fetched(r.phase.checkedAt, s.cubby[r.id]));
      }
    }
  }

  lemma FinishKeeps(shared: bool, s: State, step: Step)
    requires Inv(shared, s) && step.Finish?
    ensures Inv(shared, Next(shared, s, step))
  {
    if step.q in s.requests && s.requests[step.q].phase.Fetched? {
      var r := s.requests[step.q];
      assert Good(s.nodes, s.repo, s.minted, step.q, r);
      ForgetPayload(shared, s, r.id);
      WinnerMoves(shared, s.(cubby := Removed(s.cubby, r.id, step.fails)), step.q,
                  Returned(r.phase.checkedAt, r.phase.payload));
    }
  }

  lemma NextKeeps(shared: bool, s: State, step: Step)
    requires Inv(shared, s)
    ensures Inv(shared, Next(shared, s, step))
  {
    hide Inv, Next;
    match step
    case StartWrap(_, _, _, _, _, _) => StartWrapKeeps(shared, s, step);
    case PutMeta(_, _) => PutMetaKeeps(shared, s, step);
    case DropPayload(_, _) => DropPayloadKeeps(shared, s, step);
    case ReadMeta(_, _, _, _) => ReadMetaKeeps(shared, s, step);
    case MarkUsed(_, _, _) => MarkUsedKeeps(shared, s, step);
    case Fetch(_, _) => FetchKeeps(shared, s, step);
    case Finish(_, _) => FinishKeeps(shared, s, step);
    case Lookup(_, _, _, _) => LookupKeeps(shared, s, step);
  }

  lemma {:induction false} AfterKeeps(shared: bool, nodes: set<NodeId>, steps: seq<Step>)
    ensures Inv(shared, After(shared, nodes, steps))
  {
    hide Next;
    if steps != [] {
      AfterKeeps(shared, nodes, steps[..|steps| - 1]);
      NextKeeps(shared, After(shared, nodes, steps[..|steps| - 1]), steps[|steps| - 1]);
    }
  }

  // --------------------------------------------------------------- main results

  /** The step does not read a stored token's metadata blindly: see `Blind`. */
  ghost predicate Trusted(s: State, step: Step) {
    step.ReadMeta? && step.fails && step.n in s.nodes && step.id in s.nodes[step.n].wraps ==>
      !Blind(s.repo, step.id, s.nodes[step.n].wraps[step.id])
  }

  /** No read fails on a node whose own copy is unused and without a version, while the token is stored. */
  ghost predicate AllTrusted(shared: bool, nodes: set<NodeId>, steps: seq<Step>) {
    forall i :: 0 <= i < |steps| ==> Trusted(After(shared, nodes, steps[..i]), steps[i])
  }

  lemma FewerWinners(requests: map<RequestId, Request>, q: RequestId, r: Request)
    requires OneWinner(requests) && !r.Winner()
    ensures OneWinner(requests[q := r])
  {
  }

  lemma FirstWinner(requests: map<RequestId, Request>, q: RequestId, r: Request)
    requires OneWinner(requests)
    requires forall p :: p in requests && requests[p].id == r.id ==> !requests[p].Winner()
    ensures OneWinner(requests[q := r])
  {
  }

  /** If the token is unused and the compare-and-set passes, nobody has won it. */
  lemma NobodyWonYet(shared: bool, s: State, q0: RequestId, r0: Request, q: RequestId, r: Request)
    requires Copies(s.nodes, s.repo, s.minted) && Provenance(shared, s.repo, s.cubby, s.minted)
    requires Good(s.nodes, s.repo, s.minted, q0, r0) && r0.phase.MetaRead? && !r0.phase.meta.used
    requires CasPasses(s.repo, r0.id, r0.phase.meta.cas) && !Blind(s.repo, r0.id, r0.phase.meta)
    requires Good(s.nodes, s.repo, s.minted, q, r) && r.id == r0.id
    ensures !r.Winner()
  {
  }

  /** A request that reads blindly after the first write of its token would have to share the writer's lock. */
  lemma NoneTurnsBlind(s: State, q0: RequestId, r0: Request, q: RequestId, r: Request)
    requires Copies(s.nodes, s.repo, s.minted) && q != q0
    requires Good(s.nodes, s.repo, s.minted, q0, r0) && (r0.phase.MetaRead? || r0.phase.PayloadPut?)
    requires Good(s.nodes, s.repo, s.minted, q, r) && r.phase.MetaRead? && !Blind(s.repo, r.id, r.phase.meta)
    requires r0.phase.MetaRead? ==> !Blind(s.repo, r0.id, r0.phase.meta) && !r0.phase.meta.used
    ensures r.id == r0.id ==> r.phase.meta.cas.Some? || r.phase.meta.used
  {
  }

  /** A request written in a phase that neither reads nor wins. */
  lemma QuietIsExclusive(s: State, s': State, q: RequestId, r: Request)
    requires Exclusive(s) && s'.requests == s.requests[q := r] && s'.repo == s.repo
    requires !r.Winner() && !r.phase.MetaRead?
    ensures Exclusive(s')
  {
    FewerWinners(s.requests, q, r);
  }

  /** A write to a token's stored metadata turns nobody's read blind. */
  lemma WriteIsExclusive(s: State, s': State, q: RequestId, r: Request)
    requires Exclusive(s) && Copies(s.nodes, s.repo, s.minted) && AllGood(s) && q in s.requests
    requires s'.requests == s.requests[q := r] && !r.phase.MetaRead? && OneWinner(s'.requests)
    requires s.requests[q].phase.PayloadPut? || (s.requests[q].phase.MetaRead? && !s.requests[q].phase.meta.used)
    requires forall id :: id in s'.repo ==> id in s.repo || id == s.requests[q].id
    ensures Exclusive(s')
  {
    hide Good, GoodCopy;
    forall p | p in s'.requests && s'.requests[p].phase.MetaRead?
      ensures !Blind(s'.repo, s'.requests[p].id, s'.requests[p].phase.meta)
    {
      assert p != q && p in s.requests;
      assert Good(s.nodes, s.repo, s.minted, q, s.requests[q]) && Good(s.nodes, s.repo, s.minted, p, s.requests[p]);
      NoneTurnsBlind(s, q, s.requests[q], p, s.requests[p]);
    }
  }

  lemma ReadIsExclusive(shared: bool, s: State, step: Step)
    requires Inv(shared, s) && Exclusive(s) && Trusted(s, step) && step.ReadMeta?
    ensures Exclusive(Next(shared, s, step))
  {
    hide AllGood, Copies;
    var s' := Next(shared, s, step);
    if step.q !in s.requests && step.n in s.nodes && s.nodes[step.n].lock.None? {
      FewerWinners(s.requests, step.q, s'.requests[step.q]);
    }
  }

  lemma MarkIsExclusive(shared: bool, s: State, step: Step)
    requires Inv(shared, s) && Exclusive(s) && step.MarkUsed?
    ensures Exclusive(Next(shared, s, step))
  {
    hide Copies, Good, Exclusive, Provenance;
    var q, s' := step.q, Next(shared, s, step);
    if q in s.requests && s.requests[q].phase.MetaRead? && s.requests[q].node in s.nodes {
      var r, r' := s.requests[q], s'.requests[q];
      assert s'.requests == s.requests[q := r'] && r'.id == r.id && !r'.phase.MetaRead?;
      if r.phase.meta.used || step.now > r.phase.meta.expiresAt {
        QuietIsExclusive(s, s', q, r');
      } else {
        MarkHasOneWinner(shared, s, step);
        WriteIsExclusive(s, s', q, r');
      }
    }
  }

  lemma MarkHasOneWinner(shared: bool, s: State, step: Step)
    requires Inv(shared, s) && Exclusive(s) && step.MarkUsed? && step.q in s.requests
    requires s.requests[step.q].phase.MetaRead? && !s.requests[step.q].phase.meta.used
    requires s.requests[step.q].node in s.nodes
    ensures OneWinner(Next(shared, s, step).requests)
  {
    hide Copies, Good, Provenance;
    var q := step.q;
    var r, r' := s.requests[q], Next(shared, s, step).requests[q];
    if !r'.Winner() {
      FewerWinners(s.requests, q, r');
    } else {
      assert Good(s.nodes, s.repo, s.minted, q, r);
      LocalCasPasses(shared, s, q);
      forall p | p in s.requests && s.requests[p].id == r.id ensures !s.requests[p].Winner() {
        assert Good(s.nodes, s.repo, s.minted, p, s.requests[p]);
        NobodyWonYet(shared, s, q, r, p, s.requests[p]);
      }
      FirstWinner(s.requests, q, r');
    }
  }

  lemma WinnerMovesAlone(requests: map<RequestId, Request>, q: RequestId, r: Request)
    requires OneWinner(requests) && q in requests && requests[q].Winner() && r.id == requests[q].id
    ensures OneWinner(requests[q := r])
  {
  }

  lemma ExclusiveNext(shared: bool, s: State, step: Step)
    requires Inv(shared, s) && Exclusive(s) && Trusted(s, step)
    ensures Exclusive(Next(shared, s, step))
  {
    hide Inv, Next, Exclusive, Trusted;
    match step
    case ReadMeta(_, _, _, _) => ReadIsExclusive(shared, s, step);
    case MarkUsed(_, _, _) => MarkIsExclusive(shared, s, step);
    case PutMeta(_, _) => PutMetaIsExclusive(shared, s, step);
    case Fetch(_, _) => WinnerStepIsExclusive(shared, s, step);
    case Finish(_, _) => WinnerStepIsExclusive(shared, s, step);
    case _ => OtherStepIsExclusive(shared, s, step);
  }

  lemma PutMetaIsExclusive(shared: bool, s: State, step: Step)
    requires Inv(shared, s) && Exclusive(s) && step.PutMeta?
    ensures Exclusive(Next(shared, s, step))
  {
    hide Copies, Good, Exclusive, Provenance;
    var q, s' := step.q, Next(shared, s, step);
    if s' != s {
      ExclusiveHasOneWinner(s);
      FewerWinners(s.requests, q, s'.requests[q]);
      WriteIsExclusive(s, s', q, s'.requests[q]);
    }
  }

  lemma ExclusiveHasOneWinner(s: State)
    ensures Exclusive(s) ==> OneWinner(s.requests)
  {
  }

  lemma WinnerStepIsExclusive(shared: bool, s: State, step: Step)
    requires Exclusive(s) && (step.Fetch? || step.Finish?)
    ensures Exclusive(Next(shared, s, step))
  {
    var q, s' := step.q, Next(shared, s, step);
    if s' != s {
      WinnerMovesAlone(s.requests, q, s'.requests[q]);
    }
  }

  lemma OtherStepIsExclusive(shared: bool, s: State, step: Step)
    requires Exclusive(s) && (step.StartWrap? || step.DropPayload? || step.Lookup?)
    ensures Exclusive(Next(shared, s, step))
  {
    hide Exclusive, KnownTo, Ttl;
    var s' := Next(shared, s, step);
    if s' != s {
      QuietIsExclusive(s, s', step.q, s'.requests[step.q]);
    }
  }

  lemma {:induction false} ExclusiveAfter(shared: bool, nodes: set<NodeId>, steps: seq<Step>)
    requires AllTrusted(shared, nodes, steps)
    ensures Exclusive(After(shared, nodes, steps))
  {
    hide Next, Exclusive, Trusted, Inv;
    if steps == [] {
      StartIsExclusive(nodes);
    } else {
      var n := |steps| - 1;
      forall i | 0 <= i < n ensures Trusted(After(shared, nodes, steps[..n][..i]), steps[..n][i]) {
        assert steps[..n][..i] == steps[..i];
      }
      ExclusiveAfter(shared, nodes, steps[..n]);
      AfterKeeps(shared, nodes, steps[..n]);
      ExclusiveNext(shared, After(shared, nodes, steps[..n]), steps[n]);
    }
  }

  lemma StartIsExclusive(nodes: set<NodeId>)
    ensures Exclusive(Start(nodes))
  {
  }

  /**
   In every interleaving in which no read is blind, at most one unwrap of a token returns a payload. Reads may
   fail where the node has no copy of its own, or one that is used or carries a version.
   */
  lemma SingleUse(shared: bool, nodes: set<NodeId>, steps: seq<Step>, q: RequestId, q': RequestId)
    requires AllTrusted(shared, nodes, steps)
    requires var s := After(shared, nodes, steps);
             && q in s.requests && s.requests[q].phase.Returned?
             && q' in s.requests && s.requests[q'].phase.Returned?
             && s.requests[q].id == s.requests[q'].id
    ensures q == q'
  {
    hide Next;
    ExclusiveAfter(shared, nodes, steps);
  }

  /** What it returns is what was wrapped, and its expiry check passed. */
  lemma ReturnsWhatWasWrapped(shared: bool, nodes: set<NodeId>, steps: seq<Step>, q: RequestId)
    requires var s := After(shared, nodes, steps); q in s.requests && s.requests[q].phase.Returned?
    ensures var s := After(shared, nodes, steps);
            var r := s.requests[q];
            && r.id in s.minted && r.phase.payload == s.minted[r.id].payload
            && r.phase.checkedAt <= s.minted[r.id].expiresAt
  {
    AfterKeeps(shared, nodes, steps);
    var s := After(shared, nodes, steps);
    assert Good(s.nodes, s.repo, s.minted, q, s.requests[q]);
  }

  lemma RefusedIsFinal(shared: bool, s: State, step: Step, q: RequestId)
    requires q in s.requests && s.requests[q].phase.Refused?
    ensures var s' := Next(shared, s, step); q in s'.requests && s'.requests[q] == s.requests[q]
  {
    hide KnownTo, CasPasses, NextVersion, Ttl;
  }

  function RunFrom(shared: bool, s: State, steps: seq<Step>): State {
    if steps == [] then s else Next(shared, RunFrom(shared, s, steps[..|steps| - 1]), steps[|steps| - 1])
  }

  /** Once its expiry check fails, an unwrap request returns nothing, whatever happens later. */
  lemma {:induction false} ExpiredNeverReturns(shared: bool, nodes: set<NodeId>, steps: seq<Step>,
                                              q: RequestId, now: int, write: Write, later: seq<Step>)
    requires var s := After(shared, nodes, steps);
             q in s.requests && s.requests[q].phase.MetaRead? && s.requests[q].id in s.minted
             && now > s.minted[s.requests[q].id].expiresAt
    ensures var s := RunFrom(shared, Next(shared, After(shared, nodes, steps), MarkUsed(q, now, write)), later);
            q in s.requests && s.requests[q].phase.Refused?
    decreases |later|
  {
    if later == [] {
      AfterKeeps(shared, nodes, steps);
      var s := After(shared, nodes, steps);
      assert Good(s.nodes, s.repo, s.minted, q, s.requests[q]);
    } else {
      hide Next;
      var n := |later| - 1;
      ExpiredNeverReturns(shared, nodes, steps, q, now, write, later[..n]);
      var s := Next(shared, After(shared, nodes, steps), MarkUsed(q, now, write));
      RefusedIsFinal(shared, RunFrom(shared, s, later[..n]), later[n], q);
    }
  }

  // ------------------------------------------------------------- removed payloads

  /** The payload is gone, and whoever holds it fetched it before. */
  ghost predicate Gone(s: State, s': State, id: TokenId) {
    && id in s'.minted && id !in s'.cubby
    && forall p :: p in s'.requests && s'.requests[p].id == id && HasPayload(s'.requests[p]) ==>
                     p in s.requests && s.requests[p].id == id && HasPayload(s.requests[p])
  }

  predicate HasPayload(r: Request) {
    r.phase.Fetched? || r.phase.Returned?
  }

  lemma GoneNext(shared: bool, s: State, s1: State, step: Step, id: TokenId)
    requires Gone(s, s1, id)
    ensures Gone(s, Next(shared, s1, step), id)
  {
    hide Next, HasPayload;
    var s2 := Next(shared, s1, step);
    PutOnce(shared, s1, step, id);
    forall p | p in s2.requests && s2.requests[p].id == id && HasPayload(s2.requests[p])
      ensures p in s1.requests && s1.requests[p].id == id && HasPayload(s1.requests[p])
    {
      FetchedFirst(shared, s1, step, p);
    }
  }

  /** A payload is put under a token id never used before. */
  lemma PutOnce(shared: bool, s: State, step: Step, id: TokenId)
    requires id in s.minted && id !in s.cubby
    ensures var s' := Next(shared, s, step); id in s'.minted && id !in s'.cubby
  {
    hide KnownTo, CasPasses, NextVersion, Ttl;
  }

  /** What a request holds it held before, or fetched from the cubbyhole. */
  lemma FetchedFirst(shared: bool, s: State, step: Step, p: RequestId)
    ensures var s' := Next(shared, s, step);
            p in s'.requests && HasPayload(s'.requests[p]) ==>
              && p in s.requests && s.requests[p].id == s'.requests[p].id
              && (HasPayload(s.requests[p]) || s.requests[p].id in s.cubby)
  {
    hide Next;
    if p != step.q {
      OthersStay(shared, s, step, p);
    } else if step.Fetch? || step.Finish? {
      FetchIsFetched(shared, s, step);
    } else {
      HoldsNothingNew(shared, s, step);
    }
  }

  lemma OthersStay(shared: bool, s: State, step: Step, p: RequestId)
    requires p != step.q
    ensures var s' := Next(shared, s, step);
            (p in s'.requests <==> p in s.requests) && (p in s.requests ==> s'.requests[p] == s.requests[p])
  {
    hide Next;
    if step.ReadMeta? || step.MarkUsed? || step.Fetch? || step.Finish? {
      OthersStayUnwrapping(shared, s, step, p);
    } else {
      OthersStayOtherwise(shared, s, step, p);
    }
  }

  lemma OthersStayUnwrapping(shared: bool, s: State, step: Step, p: RequestId)
    requires p != step.q && (step.ReadMeta? || step.MarkUsed? || step.Fetch? || step.Finish?)
    ensures var s' := Next(shared, s, step);
            (p in s'.requests <==> p in s.requests) && (p in s.requests ==> s'.requests[p] == s.requests[p])
  {
    hide KnownTo, CasPasses, NextVersion, Removed;
  }

  lemma OthersStayOtherwise(shared: bool, s: State, step: Step, p: RequestId)
    requires p != step.q && (step.StartWrap? || step.PutMeta? || step.DropPayload? || step.Lookup?)
    ensures var s' := Next(shared, s, step);
            (p in s'.requests <==> p in s.requests) && (p in s.requests ==> s'.requests[p] == s.requests[p])
  {
    hide KnownTo, NextVersion, Ttl, Removed;
  }

  lemma FetchIsFetched(shared: bool, s: State, step: Step)
    requires step.Fetch? || step.Finish?
    ensures var s' := Next(shared, s, step);
            step.q in s'.requests && HasPayload(s'.requests[step.q]) ==>
              && step.q in s.requests && s.requests[step.q].id == s'.requests[step.q].id
              && (HasPayload(s.requests[step.q]) || s.requests[step.q].id in s.cubby)
  {
    hide Removed;
  }

  lemma HoldsNothingNew(shared: bool, s: State, step: Step)
    requires !step.Fetch? && !step.Finish?
    ensures var s' := Next(shared, s, step);
            step.q in s'.requests && HasPayload(s'.requests[step.q]) ==>
              step.q in s.requests && s.requests[step.q] == s'.requests[step.q]
  {
    hide KnownTo, CasPasses, NextVersion, Ttl, Removed;
  }

  /** The token of a request whose metadata write is to come or has failed was minted by it. */
  predicate MintedBy(s: State, q: RequestId) {
    q in s.requests && (s.requests[q].phase.PayloadPut? || s.requests[q].phase.MetaFailed?) ==>
      s.requests[q].id in s.minted
  }

  lemma MintedByNext(shared: bool, s: State, step: Step, q: RequestId)
    requires MintedBy(s, q)
    ensures MintedBy(Next(shared, s, step), q)
  {
    hide KnownTo, CasPasses, NextVersion, Ttl, Removed;
  }

  lemma {:induction false} MintedByThen(shared: bool, nodes: set<NodeId>, steps: seq<Step>, q: RequestId)
    ensures MintedBy(After(shared, nodes, steps), q)
  {
    hide Next;
    if steps != [] {
      var n := |steps| - 1;
      MintedByThen(shared, nodes, steps[..n], q);
      MintedByNext(shared, After(shared, nodes, steps[..n]), steps[n], q);
    }
  }

  lemma HolderWasMinted(shared: bool, nodes: set<NodeId>, steps: seq<Step>, q: RequestId)
    requires q in After(shared, nodes, steps).requests
    ensures var s := After(shared, nodes, steps); HasPayload(s.requests[q]) ==> s.requests[q].id in s.minted
  {
    hide Next;
    AfterKeeps(shared, nodes, steps);
    var s := After(shared, nodes, steps);
    assert Good(s.nodes, s.repo, s.minted, q, s.requests[q]);
  }

  lemma {:induction false} GoneForGood(shared: bool, s: State, later: seq<Step>, id: TokenId)
    requires id in s.minted && id !in s.cubby
    ensures Gone(s, RunFrom(shared, s, later), id)
  {
    hide Next;
    if later != [] {
      var n := |later| - 1;
      GoneForGood(shared, s, later[..n], id);
      GoneNext(shared, s, RunFrom(shared, s, later[..n]), later[n], id);
    }
  }

  /**
   Once a removal succeeds, by an unwrap that returns or by a wrap that failed, the token's payload is in no later
   state, and only requests that had fetched it by then ever return it. This holds in all runs, with blind reads too.
   */
  lemma RemovedNeverReturns(shared: bool, nodes: set<NodeId>, steps: seq<Step>, step: Step, later: seq<Step>)
    requires (step.Finish? || step.DropPayload?) && !step.fails
    requires var s := After(shared, nodes, steps);
             && step.q in s.requests
             && if step.Finish? then s.requests[step.q].phase.Fetched? else s.requests[step.q].phase.MetaFailed?
    ensures var s := After(shared, nodes, steps);
            var s' := RunFrom(shared, Next(shared, s, step), later);
            && s.requests[step.q].id !in s'.cubby
            && forall p :: p in s'.requests && s'.requests[p].id == s.requests[step.q].id
                           && s'.requests[p].phase.Returned? ==>
                             p in s.requests && s.requests[p].id == s.requests[step.q].id && HasPayload(s.requests[p])
  {
    var s := After(shared, nodes, steps);
    MintedByThen(shared, nodes, steps, step.q);
    HolderWasMinted(shared, nodes, steps, step.q);
    GoneForGood(shared, Next(shared, s, step), later, s.requests[step.q].id);
  }

  /** Nothing else removes or changes a payload. */
  lemma PayloadStays(shared: bool, nodes: set<NodeId>, steps: seq<Step>, step: Step, id: TokenId)
    requires id in After(shared, nodes, steps).cubby
    ensures var s := After(shared, nodes, steps);
            var s' := Next(shared, s, step);
            || (id in s'.cubby && s'.cubby[id] == s.cubby[id])
            || ((step.Finish? || step.DropPayload?) && !step.fails && step.q in s.requests
                && s.requests[step.q].id == id)
  {
    hide KnownTo, CasPasses, NextVersion, Ttl, Copies, AllGood;
    AfterKeeps(shared, nodes, steps);
  }

  // -------------------------------------------------------- undisturbed requests

  function RunWrap(shared: bool, s: State, q: RequestId, n: NodeId, id: TokenId, payload: Payload, now: int, ttl: int,
                   write: Write, kept: bool): State {
    DoDropPayload(DoPutMeta(shared, DoStartWrap(s, q, n, id, payload, now, ttl), q, write), q, kept)
  }

  function RunUnwrap(shared: bool, s: State, q: RequestId, n: NodeId, id: TokenId, unread: bool, now: int, write: Write,
                     fails: bool, kept: bool): State {
    DoFinish(DoFetch(DoMarkUsed(shared, DoReadMeta(shared, s, q, n, id, unread), q, now, write), q, fails), q, kept)
  }

  /** A wrap, then an unwrap in time on any node that can know the token: the payload comes back. */
  lemma UnwrapUndoesWrap(shared: bool, nodes: set<NodeId>, steps: seq<Step>, q: RequestId, q': RequestId, n: NodeId,
                         n': NodeId, id: TokenId, payload: Payload, now: int, ttl: int, now': int, kept: bool)
    requires var s := After(shared, nodes, steps);
             && q !in s.requests && q' !in s.requests && q != q' && id !in s.minted && payload != ""
             && n in s.nodes && n' in s.nodes && s.nodes[n].lock.None? && s.nodes[n'].lock.None?
    requires (shared || n == n') && now' <= now + Ttl(ttl)
    ensures var s1 := RunWrap(shared, After(shared, nodes, steps), q, n, id, payload, now, ttl, Applied, kept);
            var s2 := RunUnwrap(shared, s1, q', n', id, false, now', Applied, false, kept);
            q' in s2.requests && s2.requests[q'].phase == Returned(now', payload)
  {
    var s := After(shared, nodes, steps);
    AfterKeeps(shared, nodes, steps);
    assert id !in s.repo;
    Wrapped(shared, s, q, n, id, payload, now, ttl, kept);
    var s1 := RunWrap(shared, s, q, n, id, payload, now, ttl, Applied, kept);
    Unwrapped(shared, s1, q', n', id, now', now + Ttl(ttl), kept);
  }

  lemma Wrapped(shared: bool, s: State, q: RequestId, n: NodeId, id: TokenId, payload: Payload, now: int, ttl: int,
                kept: bool)
    requires q !in s.requests && id !in s.minted && payload != "" && n in s.nodes && s.nodes[n].lock.None?
            && id !in s.repo
    ensures var s1 := RunWrap(shared, s, q, n, id, payload, now, ttl, Applied, kept);
            && s1.requests.Keys == s.requests.Keys + {q} && s1.nodes.Keys == s.nodes.Keys
            && (forall m :: m in s.nodes ==> s1.nodes[m].lock == s.nodes[m].lock)
            && id in s1.cubby && s1.cubby[id] == payload
            && (if shared then id in s1.repo && s1.repo[id] == Stored(1, now + Ttl(ttl), false)
                else id in s1.nodes[n].wraps && s1.nodes[n].wraps[id] == Meta(now + Ttl(ttl), false, None))
  {
  }

  lemma Unwrapped(shared: bool, s: State, q: RequestId, n: NodeId, id: TokenId, now: int, expiresAt: int, kept: bool)
    requires q !in s.requests && n in s.nodes && s.nodes[n].lock.None? && now <= expiresAt && id in s.cubby
    requires if shared then id in s.repo && !s.repo[id].used && s.repo[id].expiresAt == expiresAt
             else id in s.nodes[n].wraps && s.nodes[n].wraps[id] == Meta(expiresAt, false, None)
    ensures var s' := RunUnwrap(shared, s, q, n, id, false, now, Applied, false, kept);
            q in s'.requests && s'.requests[q].phase == Returned(now, s.cubby[id])
  {
    var s1 := DoReadMeta(shared, s, q, n, id, false);
    assert s1.requests[q].phase.MetaRead?;
    var s2 := DoMarkUsed(shared, s1, q, now, Applied);
    assert s2.requests[q].phase == Marked(now);
  }

  /** Steps of one request on node `n` that keep payloads, stored tokens and the other nodes. */
  ghost predicate Leaves(s: State, s': State, q: RequestId, n: NodeId) {
    && s'.cubby == s.cubby && s.repo.Keys <= s'.repo.Keys && s'.requests.Keys <= s.requests.Keys + {q}
    && (q in s'.requests ==> s'.requests[q].node == n)
    && forall m :: m in s.nodes && m != n ==> m in s'.nodes && s'.nodes[m] == s.nodes[m]
  }

  lemma ReadLeaves(s: State, q: RequestId, n: NodeId, id: TokenId)
    requires q !in s.requests
    ensures Leaves(s, DoReadMeta(true, s, q, n, id, false), q, n)
  {
    hide KnownTo;
  }

  lemma MarkLeaves(s: State, q: RequestId, n: NodeId, now: int)
    requires q in s.requests ==> s.requests[q].node == n
    ensures Leaves(s, DoMarkUsed(true, s, q, now, Applied), q, n)
  {
    hide CasPasses, NextVersion;
  }

  lemma FinishLeaves(s: State, q: RequestId, n: NodeId)
    requires q in s.requests ==> s.requests[q].node == n
    ensures Leaves(s, DoFinish(DoFetch(s, q, false), q, true), q, n)
  {
  }

  /** What an undisturbed unwrap whose removal fails leaves to the other nodes. */
  lemma UnwrapLeaves(s: State, q: RequestId, n: NodeId, id: TokenId, now: int)
    requires q !in s.requests
    ensures Leaves(s, RunUnwrap(true, s, q, n, id, false, now, Applied, false, true), q, n)
  {
    hide DoReadMeta, DoMarkUsed, DoFetch, DoFinish;
    ReadLeaves(s, q, n, id);
    var s1 := DoReadMeta(true, s, q, n, id, false);
    MarkLeaves(s1, q, n, now);
    FinishLeaves(DoMarkUsed(true, s1, q, now, Applied), q, n);
  }

  lemma OwnCopyAfterWrap(s: State, q: RequestId, n: NodeId, id: TokenId, payload: Payload, now: int, ttl: int,
                         kept: bool)
    requires q !in s.requests && id !in s.minted && payload != "" && n in s.nodes && s.nodes[n].lock.None?
    ensures var s1 := RunWrap(true, s, q, n, id, payload, now, ttl, Applied, kept);
            n in s1.nodes && id in s1.nodes[n].wraps && s1.nodes[n].wraps[id] == Meta(now + Ttl(ttl), false, None)
  {
  }

  /** A blind unwrap finds its own note, writes without compare-and-set and returns the payload if it is still there. */
  lemma BlindReadReturns(s: State, q: RequestId, n: NodeId, id: TokenId, now: int, kept: bool)
    requires q !in s.requests && n in s.nodes && s.nodes[n].lock.None? && id in s.cubby
    requires id in s.nodes[n].wraps && Blind(s.repo, id, s.nodes[n].wraps[id]) && now <= s.nodes[n].wraps[id].expiresAt
    ensures var s' := RunUnwrap(true, s, q, n, id, true, now, Applied, false, kept);
            && q in s'.requests && s'.requests[q].phase == Returned(now, s.cubby[id])
            && forall p :: p in s.requests ==> p in s'.requests && s'.requests[p] == s.requests[p]
  {
    hide NextVersion;
    var s1 := DoReadMeta(true, s, q, n, id, true);
    assert s1.requests[q].phase == MetaRead(s.nodes[n].wraps[id]);
    var s2 := DoMarkUsed(true, s1, q, now, Applied);
    assert s2.requests[q].phase == Marked(now);
  }

  /**
   Without trust, single use fails. After any run: a wrap on one node, an unwrap on another whose removal of the
   payload fails, and an unwrap on the first node whose read fails. Both unwraps return the payload.
   */
  lemma BlindReadReturnsAgain(nodes: set<NodeId>, steps: seq<Step>, q: RequestId, q': RequestId, q'': RequestId,
                              n: NodeId, n': NodeId, id: TokenId, payload: Payload, now: int, ttl: int, later: int)
    requires var s := After(true, nodes, steps);
             && q !in s.requests && q' !in s.requests && q'' !in s.requests && id !in s.minted && payload != ""
             && n in s.nodes && n' in s.nodes && s.nodes[n].lock.None? && s.nodes[n'].lock.None?
    requires n != n' && q != q' && q != q'' && q' != q'' && later <= now + Ttl(ttl)
    ensures var s1 := RunWrap(true, After(true, nodes, steps), q, n, id, payload, now, ttl, Applied, false);
            var s2 := RunUnwrap(true, s1, q', n', id, false, later, Applied, false, true);
            var s3 := RunUnwrap(true, s2, q'', n, id, true, later, Applied, false, false);
            && q' in s3.requests && s3.requests[q'].phase == Returned(later, payload)
            && q'' in s3.requests && s3.requests[q''].phase == Returned(later, payload)
  {
    hide RunWrap, RunUnwrap;
    var s := After(true, nodes, steps);
    AfterKeeps(true, nodes, steps);
    assert id !in s.repo;
    Wrapped(true, s, q, n, id, payload, now, ttl, false);
    OwnCopyAfterWrap(s, q, n, id, payload, now, ttl, false);
    var s1 := RunWrap(true, s, q, n, id, payload, now, ttl, Applied, false);
    Unwrapped(true, s1, q', n', id, later, now + Ttl(ttl), true);
    UnwrapLeaves(s1, q', n', id, later);
    var s2 := RunUnwrap(true, s1, q', n', id, false, later, Applied, false, true);
    BlindReadReturns(s2, q'', n, id, later, false);
  }

  // -------------------------------------------------------------- one service node


  /** What one call can see and change: its node's map and the shared storage. */
  datatype View = View(wraps: map<TokenId, Meta>, repo: map<TokenId, Stored>, cubby: map<TokenId, Payload>)

  ghost predicate Sees(v: View, s: State, n: NodeId) {
    n in s.nodes && s.nodes[n] == Node(None, v.wraps) && s.repo == v.repo && s.cubby == v.cubby
  }

  datatype Error = NotFound | AlreadyUsed | Expired | WriteError | PayloadError | EmptyPayload

  function PutView(shared: bool, v: View, id: TokenId, meta: Meta, write: Write): View {
    v.(wraps := v.wraps[id := meta],
       repo := if shared && CasPasses(v.repo, id, meta.cas) && !write.Failed?
               then v.repo[id := Stored(NextVersion(v.repo, id), meta.expiresAt, meta.used)] else v.repo)
  }

  predicate PutSucceeds(shared: bool, v: View, id: TokenId, meta: Meta, write: Write) {
    !shared || (CasPasses(v.repo, id, meta.cas) && write.Applied?)
  }

  function WrapView(shared: bool, v: View, id: TokenId, payload: Payload, exp: int, write: Write, kept: bool): View {
    var v1 := PutView(shared, v.(cubby := v.cubby[id := payload]), id, Meta(exp, false, None), write);
    if PutSucceeds(shared, v, id, Meta(exp, false, None), write) then v1
    else v1.(cubby := Removed(v1.cubby, id, kept))
  }

  function UnwrapView(shared: bool, v: View, id: TokenId, unread: bool, now: int, write: Write, fails: bool, kept: bool)
    : (View, Result<Payload, Error>)
  {
    match KnownTo(shared && !unread, v.wraps, v.repo, id)
    case None => (v, Err(NotFound))
    case Some(meta) =>
      var v1 := v.(wraps := v.wraps[id := meta]);
      if meta.used then (v1, Err(AlreadyUsed))
      else if now > meta.expiresAt then (v1, Err(Expired))
      else
        var v2 := PutView(shared, v1, id, meta.(used := true), write);
        if !PutSucceeds(shared, v1, id, meta.(used := true), write) then (v2, Err(WriteError))
        else if fails || id !in v2.cubby then (v2, Err(PayloadError))
        else (v2.(cubby := Removed(v2.cubby, id, kept)), Ok(v2.cubby[id]))
  }

  /** Which tokens are refused before anything is written: what the repository says counts, if it can be read. */
  ghost predicate RefusesRightly(shared: bool, v: View, id: TokenId, unread: bool, now: int, r: Result<Payload, Error>)
  {
    var stored := shared && !unread && id in v.repo;
    var known := stored || id in v.wraps;
    var used := if stored then v.repo[id].used else known && v.wraps[id].used;
    var expired := now > if stored then v.repo[id].expiresAt else if known then v.wraps[id].expiresAt else now;
    && (r == Err(NotFound) <==> !known)
    && (r == Err(AlreadyUsed) <==> known && used)
    && (r == Err(Expired) <==> known && !used && expired)
  }

  /** The token is marked used wherever its metadata is kept. */
  ghost predicate UsedIn(shared: bool, v: View, id: TokenId) {
    id in v.wraps && v.wraps[id].used && (shared ==> id in v.repo && v.repo[id].used)
  }

  /** Nothing fails, and the metadata says that the token can be used. */
  ghost predicate UnwrapWorks(shared: bool, v: View, id: TokenId, unread: bool, now: int, write: Write, fails: bool) {
    && !unread && write.Applied? && !fails && id in v.cubby
    && if shared then id in v.repo && !v.repo[id].used && now <= v.repo[id].expiresAt
       else id in v.wraps && !v.wraps[id].used && now <= v.wraps[id].expiresAt
  }

  lemma UnwrapViewMeans(shared: bool, v: View, id: TokenId, unread: bool, now: int, write: Write, fails: bool,
                        kept: bool)
    ensures var (v', r) := UnwrapView(shared, v, id, unread, now, write, fails, kept);
            && RefusesRightly(shared, v, id, unread, now, r)
            && (r.Ok? ==> UsedIn(shared, v', id))
            && (UnwrapWorks(shared, v, id, unread, now, write, fails) ==> r.Ok?)
  {
  }

  /** An undisturbed wrap call is the protocol's wrap. */
  lemma WrapCallIsRun(shared: bool, v: View, s: State, q: RequestId, n: NodeId, id: TokenId, payload: Payload,
                      now: int, ttl: int, write: Write, kept: bool)
    requires Sees(v, s, n) && q !in s.requests && id !in s.minted && payload != ""
    ensures var s' := RunWrap(shared, s, q, n, id, payload, now, ttl, write, kept);
            && Sees(WrapView(shared, v, id, payload, now + Ttl(ttl), write, kept), s', n) && q in s'.requests
            && (s'.requests[q].phase.WrapDone? <==>
                PutSucceeds(shared, v, id, Meta(now + Ttl(ttl), false, None), write))
  {
    var s1 := DoStartWrap(s, q, n, id, payload, now, ttl);
    assert s1.requests[q] == Request(n, id, PayloadPut(now + Ttl(ttl)));
    var s2 := DoPutMeta(shared, s1, q, write);
    assert s2.requests[q].id == id;
  }

  /** The two last steps after marking: fetch the payload and return it. */
  lemma FinishSees(v: View, s: State, q: RequestId, n: NodeId, id: TokenId, now: int, fails: bool, kept: bool)
    requires Sees(v, s, n) && q in s.requests && s.requests[q] == Request(n, id, Marked(now))
    ensures var s' := DoFinish(DoFetch(s, q, fails), q, kept);
            && q in s'.requests
            && if fails || id !in v.cubby then Sees(v, s', n) && s'.requests[q].phase.Refused?
               else Sees(v.(cubby := Removed(v.cubby, id, kept)), s', n)
                    && s'.requests[q].phase == Returned(now, v.cubby[id])
  {
    var s1 := DoFetch(s, q, fails);
    assert s1.requests[q].id == id;
  }

  /** Checking and marking, from what was read under the lock. */
  lemma MarkSees(shared: bool, v: View, s: State, q: RequestId, n: NodeId, id: TokenId, meta: Meta, now: int,
                 write: Write)
    requires n in s.nodes && s.nodes[n] == Node(Some(q), v.wraps) && s.repo == v.repo && s.cubby == v.cubby
    requires q in s.requests && s.requests[q] == Request(n, id, MetaRead(meta))
    ensures var s' := DoMarkUsed(shared, s, q, now, write);
            var live := !meta.used && now <= meta.expiresAt;
            && Sees(if live then PutView(shared, v, id, meta.(used := true), write) else v, s', n) && q in s'.requests
            && s'.requests[q] == Request(n, id,
                 if live && PutSucceeds(shared, v, id, meta.(used := true), write) then Marked(now) else Refused)
  {
    hide CasPasses, NextVersion;
  }

  /** An undisturbed unwrap call is the protocol's unwrap, with the same answer. */
  lemma UnwrapCallIsRun(shared: bool, v: View, s: State, q: RequestId, n: NodeId, id: TokenId, unread: bool, now: int,
                        write: Write, fails: bool, kept: bool)
    requires Sees(v, s, n) && q !in s.requests
    ensures var s' := RunUnwrap(shared, s, q, n, id, unread, now, write, fails, kept);
            var (v', r) := UnwrapView(shared, v, id, unread, now, write, fails, kept);
            && Sees(v', s', n) && q in s'.requests
            && (r.Ok? <==> s'.requests[q].phase.Returned?)
            && (r.Ok? ==> s'.requests[q].phase == Returned(now, r.value))
  {
    hide KnownTo, PutView, PutSucceeds, DoMarkUsed;
    var s1 := DoReadMeta(shared, s, q, n, id, unread);
    var known := KnownTo(shared && !unread, v.wraps, v.repo, id);
    if known.None? {
      assert s1.requests[q].phase.Refused? && Sees(v, s1, n);
      NothingToMark(shared, s1, q, now, write, fails, kept);
    } else {
      var meta := known.value;
      var v1 := v.(wraps := v.wraps[id := meta]);
      MarkSees(shared, v1, s1, q, n, id, meta, now, write);
      var s2 := DoMarkUsed(shared, s1, q, now, write);
      if s2.requests[q].phase == Marked(now) {
        FinishSees(PutView(shared, v1, id, meta.(used := true), write), s2, q, n, id, now, fails, kept);
      }
    }
  }

  lemma NothingToMark(shared: bool, s: State, q: RequestId, now: int, write: Write, fails: bool, kept: bool)
    requires q in s.requests && s.requests[q].phase.Refused?
    ensures DoFinish(DoFetch(DoMarkUsed(shared, s, q, now, write), q, fails), q, kept) == s
  {
  }

  /** Storage all nodes share: the metadata repository and the cubbyhole. */
  class Storage {
    var repo: map<TokenId, Stored>
    var cubby: map<TokenId, Payload>

    constructor ()
      ensures repo == map[] && cubby == map[]
    {
      repo, cubby := map[], map[];
    }

    /** Compare-and-set on the latest version; `write` says whether storage fails or loses its reply. */
    method PutAtomic(id: TokenId, expiresAt: int, used: bool, cas: Option<nat>, write: Write) returns (ok: bool)
      modifies this`repo
      ensures ok <==> (cas.Some? ==> id in old(repo) && old(repo)[id].version == cas.value) && write.Applied?
      ensures repo == if CasPasses(old(repo), id, cas) && !write.Failed?
                      then old(repo)[id := Stored(NextVersion(old(repo), id), expiresAt, used)] else old(repo)
      ensures ok ==> id in repo && repo[id].expiresAt == expiresAt && repo[id].used == used
                     && repo[id].version == if id in old(repo) then old(repo)[id].version + 1 else 1
      ensures repo - {id} == old(repo) - {id}
    {
      if write.Failed? || (cas.Some? && (id !in repo || repo[id].version != cas.value)) {
        return false;
      }
      var version := if id in repo then repo[id].version + 1 else 1;
      repo := repo[id := Stored(version, expiresAt, used)];
      return write.Applied?;
    }
  }

  /** Seconds left, and the time at which none are. */
  datatype Lifetime = Lifetime(ttl: nat, expiresAt: int)

  class WrappingService {
    const shared: bool
    const storage: Storage
    var wraps: map<TokenId, Meta>

    ghost function Value(): View
      reads this, storage
    {
      View(wraps, storage.repo, storage.cubby)
    }

    constructor (shared: bool, storage: Storage)
      ensures this.shared == shared && this.storage == storage && wraps == map[]
    {
      this.shared, this.storage := shared, storage;
      wraps := map[];
    }

    /** `unread` says that the repository cannot be read. */
    method GetMeta(id: TokenId, unread: bool) returns (meta: Option<Meta>)
      modifies this`wraps
      ensures meta == KnownTo(shared && !unread, old(wraps), storage.repo, id)
      ensures meta == if shared && !unread && id in storage.repo
                      then Some(Meta(storage.repo[id].expiresAt, storage.repo[id].used, Some(storage.repo[id].version)))
                      else if id in old(wraps) then Some(old(wraps)[id]) else None
      ensures wraps == if meta.Some? then old(wraps)[id := meta.value] else old(wraps)
    {
      if shared && !unread && id in storage.repo {
        var stored := storage.repo[id];
        meta := Some(Meta(stored.expiresAt, stored.used, Some(stored.version)));
        wraps := wraps[id := meta.value];
      } else if id in wraps {
        meta := Some(wraps[id]);
        assert wraps == wraps[id := meta.value];
      } else {
        meta := None;
      }
    }

    method PutMeta(id: TokenId, meta: Meta, write: Write) returns (ok: bool)
      modifies this`wraps, storage`repo
      ensures Value() == PutView(shared, old(Value()), id, meta, write)
      ensures ok == PutSucceeds(shared, old(Value()), id, meta, write)
    {
      wraps := wraps[id := meta];
      if !shared {
        return true;
      }
      ok := storage.PutAtomic(id, meta.expiresAt, meta.used, meta.cas, write);
    }

    /** `kept` says that removing the payload fails, which goes unnoticed. */
    method Wrap(id: TokenId, payload: Payload, now: int, ttl: int, write: Write, kept: bool)
      returns (r: Result<int, Error>)
      modifies this, storage
      ensures payload == "" ==> r == Err(EmptyPayload) && Value() == old(Value())
      ensures payload != "" ==> Value() == WrapView(shared, old(Value()), id, payload, now + Ttl(ttl), write, kept)
      ensures r.Ok? <==> payload != "" && (!shared || write.Applied?)
      ensures r.Ok? ==> r.value == now + if ttl <= 0 then 60 else if ttl <= 3600 then ttl else 3600
      ensures r.Ok? ==> id in storage.cubby && storage.cubby[id] == payload
                        && id in wraps && wraps[id] == Meta(r.value, false, None)
                        && (shared ==> id in storage.repo && storage.repo[id].expiresAt == r.value
                                       && !storage.repo[id].used)
      ensures r.Err? && payload != "" ==>
                r == Err(WriteError) && if kept then storage.cubby == old(storage.cubby)[id := payload]
                                        else id !in storage.cubby
      ensures storage.cubby - {id} == old(storage.cubby) - {id} && storage.repo - {id} == old(storage.repo) - {id}
    {
      if payload == "" {
        return Err(EmptyPayload);
      }
      var life := ttl;
      if life <= 0 {
        life := DEFAULT_TTL;
      }
      if life > MAX_TTL {
        life := MAX_TTL;
      }
      storage.cubby := storage.cubby[id := payload];
      var ok := PutMeta(id, Meta(now + life, false, None), write);
      if !ok {
        storage.cubby := Removed(storage.cubby, id, kept);
        return Err(WriteError);
      }
      return Ok(now + life);
    }

    method Unwrap(id: TokenId, unread: bool, now: int, write: Write, fetchFails: bool, kept: bool)
      returns (r: Result<Payload, Error>)
      modifies this, storage
      ensures (Value(), r) == UnwrapView(shared, old(Value()), id, unread, now, write, fetchFails, kept)
      ensures r.Ok? ==> id in old(storage.cubby) && r.value == old(storage.cubby)[id]
      ensures storage.cubby == if r.Ok? && !kept then old(storage.cubby) - {id} else old(storage.cubby)
      ensures RefusesRightly(shared, old(Value()), id, unread, now, r)
      ensures r.Ok? ==> UsedIn(shared, Value(), id)
      ensures UnwrapWorks(shared, old(Value()), id, unread, now, write, fetchFails) ==> r.Ok?
    {
      UnwrapViewMeans(shared, Value(), id, unread, now, write, fetchFails, kept);
      hide RefusesRightly, UsedIn, UnwrapWorks;
      var meta := GetMeta(id, unread);
      if meta.None? {
        return Err(NotFound);
      }
      if meta.value.used {
        return Err(AlreadyUsed);
      }
      if now > meta.value.expiresAt {
        return Err(Expired);
      }
      var ok := PutMeta(id, meta.value.(used := true), write);
      if !ok {
        return Err(WriteError);
      }
      if fetchFails || id !in storage.cubby {
        return Err(PayloadError);
      }
      var data := storage.cubby[id];
      storage.cubby := Removed(storage.cubby, id, kept);
      return Ok(data);
    }

    /**
     A lookup tells apart live, used and expired tokens and changes only the local copy; `later` is a second
     look at the clock.
     */
    method Lookup(id: TokenId, unread: bool, now: int, later: int) returns (r: Result<Lifetime, Error>)
      modifies this`wraps
      ensures match KnownTo(shared && !unread, old(wraps), storage.repo, id)
              case None => r == Err(NotFound) && wraps == old(wraps)
              case Some(meta) =>
                && wraps == old(wraps)[id := meta]
                && r == if meta.used then Err(NotFound) else if now > meta.expiresAt then Err(Expired)
                        else Ok(Lifetime(if meta.expiresAt < later then 0 else meta.expiresAt - later, meta.expiresAt))
    {
      var meta := GetMeta(id, unread);
      if meta.None? || meta.value.used {
        return Err(NotFound);
      }
      if now > meta.value.expiresAt {
        return Err(Expired);
      }
      var ttl := meta.value.expiresAt - later;
      if ttl < 0 {
        ttl := 0;
      }
      return Ok(Lifetime(ttl, meta.value.expiresAt));
    }
  }
}
