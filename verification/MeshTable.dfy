/** The mesh's link table as a state machine: one step per piece of code that runs
    between two awaits, in any order that the network and the timers produce. */
module MeshTable {
  import opened Basics
  import opened Ordering
  import Discovery

  const MAX_ACTIVE_LINKS: nat := 8
  const MAX_TOTAL_LINKS: nat := 16
  const MAX_PENDING_CANDIDATES: nat := 64

  datatype Peer = Peer(pubkey: string, lastSeen: real)

  datatype Attempt = Attempt(count: nat, nextAt: real)

  /** `serial` is the identity of the connection object; `startedAt` is in seconds. */
  datatype Link = Link(serial: nat, session: string, initiator: bool, open: bool, peerPubkey: string,
                       rxSeen: set<int>, pending: nat, haveRemote: bool, startedAt: real)

  datatype Payload = Offer | Answer | Ice(last: bool)

  /** A signal that passed the first checks and waits for its decryption, with the
      key its sender was known under. */
  datatype Signal = Signal(from: string, pubkey: string, session: string, seqNo: int, createdAt: real, payload: Payload)

  /** `created` counts the connections ever made, `closed` holds those dropped. */
  datatype State = State(me: string, stopped: bool, peers: map<string, Peer>, links: map<string, Link>,
                         attempts: map<string, Attempt>, priority: seq<string>, decrypting: multiset<Signal>,
                         created: nat, closed: set<nat>)

  datatype OfferOutcome = DuplicateOffer | StaleOffer | GlareWon | CapReached(yielded: bool) | Answering(yielded: bool)

  function Init(me: string): State {
    State(me, false, map[], map[], map[], [], multiset{}, 0, {})
  }

  /** Times of the clock are in milliseconds. */
  function Seconds(now: nat): nat {
    now / 1000
  }

  // ------------------------------------------------------------------- links

  /** Enters a link under its node, whatever stood there. */
  function NewLink(s: State, node: string, session: string, initiator: bool, pubkey: string,
                   startedAt: real, rxSeen: set<int>): State
  {
    s.(links := s.links[node := Link(s.created, session, initiator, false, pubkey, rxSeen, 0, false, startedAt)],
       created := s.created + 1)
  }

  predicate Current(s: State, node: string, serial: nat) {
    node in s.links && s.links[node].serial == serial
  }

  function DropById(s: State, node: string): State {
    if node in s.links then s.(links := s.links - {node}, closed := s.closed + {s.links[node].serial}) else s
  }

  /** `sessions` yields the random name of each new session. */
  function Initiate(s: State, node: string, sessions: nat -> string, now: nat): State {
    if node !in s.peers then s else
      NewLink(s, node, sessions(s.created), true, s.peers[node].pubkey, Seconds(now) as real, {})
  }

  function InitiateAll(s: State, nodes: seq<string>, sessions: nat -> string, now: nat): State {
    if |nodes| == 0 then s else
      Initiate(InitiateAll(s, nodes[..|nodes| - 1], sessions, now), nodes[|nodes| - 1], sessions, now)
  }

  predicate BackingOff(s: State, node: string, now: nat) {
    node in s.attempts && now as real < s.attempts[node].nextAt
  }

  function Skip(s: State, now: nat): string -> bool {
    (id: string) => !StrLess(s.me, id) || id !in s.peers || BackingOff(s, id, now)
  }

  function SlotTargets(s: State, now: nat): seq<string> {
    Discovery.Targets(s.priority, s.links.Keys, MAX_ACTIVE_LINKS, Skip(s, now))
  }

  function FillSlots(s: State, sessions: nat -> string, now: nat): State {
    if s.stopped then s else InitiateAll(s, SlotTargets(s, now), sessions, now)
  }

  function MaybeConnect(s: State, node: string, sessions: nat -> string, now: nat): State {
    if s.stopped || node in s.links || !StrLess(s.me, node) || BackingOff(s, node, now)
       || |s.links| >= MAX_ACTIVE_LINKS then s
    else Initiate(s, node, sessions, now)
  }

  const RETRY_BASE_MS: nat := 4000
  const RETRY_MAX_MS: nat := 60000

  /** The delay after the given number of failures, doubling up to a minute. */
  function Delay(count: nat): (d: nat)
    ensures RETRY_BASE_MS <= d <= RETRY_MAX_MS
    ensures count > 1 ==> Delay(count - 1) <= d <= 2 * Delay(count - 1)
  {
    if count <= 1 then RETRY_BASE_MS else Min(RETRY_MAX_MS, 2 * Delay(count - 1))
  }

  /** `random` is drawn from 0 up to 1. */
  function Share(random: real): (share: real)
    ensures 0.0 <= random < 1.0 ==> 0.5 <= share < 1.0
  {
    0.5 + random * 0.5
  }

  /** A random share of a delay. */
  function Wait(delay: nat, random: real): real {
    delay as real * Share(random)
  }

  function BackOff(count: nat, now: nat, random: real): Attempt {
    Attempt(count, now as real + Wait(Delay(count), random))
  }

  /** A failed node is left alone for at least half of its delay and at most all of it. */
  lemma WaitInRange(delay: nat, random: real)
    requires 0.0 <= random < 1.0
    ensures delay as real / 2.0 <= Wait(delay, random) <= delay as real
  {
    Shared(delay as real, Share(random));
    hide Share;
  }

  lemma Shared(d: real, share: real)
    requires d >= 0.0 && 0.5 <= share < 1.0
    ensures d / 2.0 <= d * share <= d
  {
    Scaled(d, 0.5, share);
    Scaled(d, share, 1.0);
  }

  lemma Scaled(d: real, x: real, y: real)
    requires d >= 0.0 && x <= y
    ensures d * x <= d * y
  {
  }

  function RecordFailure(s: State, node: string, now: nat, random: real): State {
    var count := (if node in s.attempts then s.attempts[node].count else 0) + 1;
    s.(attempts := s.attempts[node := BackOff(count, now, random)])
  }

  // --------------------------------------------------------------- discovery

  function OnJoin(s: State, node: string, pubkey: string, createdAt: real, sessions: nat -> string, now: nat): State {
    var seen := if node in s.peers then s.peers[node].lastSeen else 0.0;
    MaybeConnect(s.(peers := s.peers[node := Peer(pubkey, Later(createdAt, seen))]), node, sessions, now)
  }

  function OnHeartbeat(s: State, node: string, createdAt: real, sessions: nat -> string, now: nat): State {
    if node !in s.peers then s else
      var peer := s.peers[node].(lastSeen := Later(s.peers[node].lastSeen, createdAt));
      MaybeConnect(s.(peers := s.peers[node := peer]), node, sessions, now)
  }

  function RemovePeer(s: State, node: string): State {
    var t := DropById(s, node);
    t.(peers := t.peers - {node}, attempts := t.attempts - {node})
  }

  /** `ready` tells whether the node's data channel works. */
  function OnLeave(s: State, node: string, createdAt: real, ready: bool): State {
    if node in s.peers && createdAt < s.peers[node].lastSeen then s
    else if node in s.links && s.links[node].open && ready then s
    else RemovePeer(s, node)
  }

  function Introduce(s: State, node: string, pubkey: string, lastSeen: real, sessions: nat -> string, now: nat): State {
    if s.stopped || node == s.me || node in s.peers then s
    else MaybeConnect(s.(peers := s.peers[node := Peer(pubkey, lastSeen)]), node, sessions, now)
  }

  predicate Stale(s: State, node: string, now: int, ttl: int, ready: set<string>) {
    && node in s.peers && now as real - s.peers[node].lastSeen > ttl as real
    && !(node in s.links && s.links[node].open && node in ready)
  }

  function Serials(links: map<string, Link>, nodes: set<string>): set<nat> {
    set n | n in nodes && n in links :: links[n].serial
  }

  /** Everything about the nodes in `gone` leaves the tables. */
  function Without(s: State, gone: set<string>): State {
    s.(peers := s.peers - gone, links := s.links - gone, attempts := s.attempts - gone,
       closed := s.closed + Serials(s.links, gone))
  }

  function Prune(s: State, now: int, ttl: int, ready: set<string>): State {
    Without(s, set n | n in s.peers && Stale(s, n, now, ttl, ready))
  }

  function Shutdown(s: State): State {
    s.(stopped := true, links := map[], closed := s.closed + Serials(s.links, s.links.Keys))
  }

  // ----------------------------------------------------------------- signals

  /** A signal for us from a known peer goes to decryption. */
  function OnSignal(s: State, target: string, sig: Signal): State {
    if target != s.me || sig.from !in s.peers || s.peers[sig.from].pubkey != sig.pubkey then s
    else s.(decrypting := s.decrypting + multiset{sig})
  }

  function OnOffer(s: State, sig: Signal): (State, OfferOutcome) {
    if sig.from in s.links && s.links[sig.from].session == sig.session then (s, DuplicateOffer)
    else if sig.from in s.links && sig.createdAt <= s.links[sig.from].startedAt then (s, StaleOffer)
    else if sig.from in s.links && !s.links[sig.from].open && s.links[sig.from].initiator && StrLess(s.me, sig.from)
    then (s, GlareWon)
    else
      var yielded := sig.from in s.links && !s.links[sig.from].open && s.links[sig.from].initiator;
      var t := DropById(s, sig.from);
      if |t.links| >= MAX_TOTAL_LINKS then (t, CapReached(yielded))
      else (NewLink(t, sig.from, sig.session, false, sig.pubkey, sig.createdAt, {sig.seqNo}), Answering(yielded))
  }

  /** The link once it has seen the signal; early candidates wait for the remote
      description. */
  function Received(link: Link, sig: Signal): Link {
    var seen := link.(rxSeen := link.rxSeen + {sig.seqNo});
    if sig.payload == Ice(false) && !link.haveRemote && link.pending < MAX_PENDING_CANDIDATES
    then seen.(pending := link.pending + 1) else seen
  }

  /** An answer or a connectivity candidate for the live session, taken once. */
  function OnReply(s: State, sig: Signal): State {
    if sig.from !in s.links || s.links[sig.from].session != sig.session || sig.seqNo in s.links[sig.from].rxSeen then s
    else s.(links := s.links[sig.from := Received(s.links[sig.from], sig)])
  }

  function OnDecrypted(s: State, sig: Signal): State {
    if sig !in s.decrypting then s else
      var t := s.(decrypting := s.decrypting - multiset{sig});
      if sig.payload == Offer then OnOffer(t, sig).0 else OnReply(t, sig)
  }

  function OnRemoteSet(s: State, node: string, serial: nat): State {
    if !Current(s, node, serial) then s else
      s.(links := s.links[node := s.links[node].(haveRemote := true, pending := 0)])
  }

  function OnChannelOpen(s: State, node: string, serial: nat): State {
    if Current(s, node, serial)
    then s.(links := s.links[node := s.links[node].(open := true)], attempts := s.attempts - {node}) else s
  }

  /** Any failure of a connection: a timeout, a closed channel, a bad answer. */
  function OnFailure(s: State, node: string, serial: nat, now: nat, random: real): State {
    if Current(s, node, serial) then RecordFailure(DropById(s, node), node, now, random) else s
  }

  // -------------------------------------------------------------------- runs

  datatype Op =
    | Join(node: string, pubkey: string, createdAt: real, now: nat)
    | Heartbeat(node: string, createdAt: real, now: nat)
    | Leave(node: string, createdAt: real, ready: bool)
    | Arrive(target: string, sig: Signal)
    | Decrypted(sig: Signal)
    | Undecryptable(sig: Signal)
    | SetPriority(candidates: seq<Discovery.Candidate>, now: nat)
    | FreeSlot(now: nat)
    | Retry(node: string, now: nat)
    | RemoteSet(node: string, serial: nat)
    | ChannelOpen(node: string, serial: nat)
    | Failure(node: string, serial: nat, now: nat, random: real)
    | Introduction(node: string, pubkey: string, lastSeen: real, now: nat)
    | Removal(node: string)
    | Pruning(at: int, ttl: int, readyNodes: set<string>)
    | ShutDown

  predicate Ignored(s: State, node: string) {
    s.stopped || node == s.me
  }

  function Step(s: State, op: Op, sessions: nat -> string): State {
    match op
    case Join(node, pubkey, createdAt, now) =>
      if Ignored(s, node) then s else OnJoin(s, node, pubkey, createdAt, sessions, now)
    case Heartbeat(node, createdAt, now) =>
      if Ignored(s, node) then s else OnHeartbeat(s, node, createdAt, sessions, now)
    case Leave(node, createdAt, ready) => if Ignored(s, node) then s else OnLeave(s, node, createdAt, ready)
    case Arrive(target, sig) => if Ignored(s, sig.from) then s else OnSignal(s, target, sig)
    case Decrypted(sig) => OnDecrypted(s, sig)
    case Undecryptable(sig) => s.(decrypting := s.decrypting - multiset{sig})
    case SetPriority(candidates, now) =>
      FillSlots(s.(priority := Discovery.NodesOf(Discovery.RankCandidates(candidates, Seconds(now)))), sessions, now)
    case FreeSlot(now) => FillSlots(s, sessions, now)
    case Retry(node, now) => if node in s.peers then MaybeConnect(s, node, sessions, now) else s
    case RemoteSet(node, serial) => OnRemoteSet(s, node, serial)
    case ChannelOpen(node, serial) => OnChannelOpen(s, node, serial)
    case Failure(node, serial, now, random) => OnFailure(s, node, serial, now, random)
    case Introduction(node, pubkey, lastSeen, now) => Introduce(s, node, pubkey, lastSeen, sessions, now)
    case Removal(node) => RemovePeer(s, node)
    case Pruning(at, ttl, readyNodes) => Prune(s, at, ttl, readyNodes)
    case ShutDown => Shutdown(s)
  }

  /** Candidates live in a map by node id, so none of them repeats. */
  ghost predicate Keyed(op: Op) {
    op.SetPriority? ==> Distinct(op.candidates) && Discovery.DistinctNodes(op.candidates)
  }

  ghost predicate AllKeyed(ops: seq<Op>) {
    forall i :: 0 <= i < |ops| ==> Keyed(ops[i])
  }

  function Run(me: string, ops: seq<Op>, sessions: nat -> string): State {
    if |ops| == 0 then Init(me) else Step(Run(me, ops[..|ops| - 1], sessions), ops[|ops| - 1], sessions)
  }
}
