/** What each event does to the mesh, told by the fields of its tables: who is known, who
    gets a connection, which offers are answered, and what stays as it was. */
module MeshEffects {
  import opened Basics
  import opened Ordering
  import opened MeshTable
  import opened MeshInvariant
  import Discovery

  // -------------------------------------------------------------- connecting

  /** Nothing is in the way of a connection of our own: the node has the larger id, is
      known, has no link and waits for no retry, and fewer than eight links are held. */
  predicate Free(s: State, node: string, now: nat) {
    && !s.stopped && StrLess(s.me, node) && node in s.peers && node !in s.links && |s.links| < 8
    && (node in s.attempts ==> s.attempts[node].nextAt <= now as real)
  }

  /** A fresh connection of our own to the node. */
  predicate Opens(s: State, t: State, node: string, session: string, now: nat) {
    && node in t.links && t.links == s.links[node := t.links[node]] && t.created == s.created + 1
    && var link := t.links[node];
       && link.serial == s.created && link.session == session && link.initiator && !link.open && !link.haveRemote
       && link.rxSeen == {} && link.pending == 0 && link.startedAt == (now / 1000) as real
       && node in t.peers && link.peerPubkey == t.peers[node].pubkey
  }

  predicate SameButLinks(s: State, t: State) {
    && t.me == s.me && t.stopped == s.stopped && t.peers == s.peers && t.attempts == s.attempts
    && t.priority == s.priority && t.decrypting == s.decrypting
  }

  /** A peer is connected to exactly when nothing is in the way. */
  lemma ConnectsIfFree(s: State, node: string, sessions: nat -> string, now: nat)
    ensures var t := MaybeConnect(s, node, sessions, now);
            && SameButLinks(s, t) && t.closed == s.closed
            && if Free(s, node, now) then Opens(s, t, node, sessions(s.created), now) else t == s
  {
    hide StrLess;
  }

  /** A JOIN makes its node known under its key, seen at the latest time, and connects to
      it if nothing is in the way; our own, or any after the stop, does nothing. */
  lemma JoinEffect(s: State, node: string, pubkey: string, createdAt: real, sessions: nat -> string, now: nat)
    ensures var t, known := Step(s, Join(node, pubkey, createdAt, now), sessions), node in s.peers;
            var seen := if known && createdAt < s.peers[node].lastSeen then s.peers[node].lastSeen
                        else if !known && createdAt < 0.0 then 0.0 else createdAt;
            var u := s.(peers := s.peers[node := Peer(pubkey, seen)]);
            if s.stopped || node == s.me then t == s
            else if Free(u, node, now) then SameButLinks(u, t) && Opens(u, t, node, sessions(s.created), now)
            else t == u
  {
    hide StrLess;
    var seen := if node in s.peers then s.peers[node].lastSeen else 0.0;
    ConnectsIfFree(s.(peers := s.peers[node := Peer(pubkey, Greater(createdAt, seen))]), node, sessions, now);
    hide MaybeConnect;
  }

  function Greater(a: real, b: real): real {
    if a >= b then a else b
  }

  /** A HEARTBEAT counts only for a known peer. */
  lemma HeartbeatEffect(s: State, node: string, createdAt: real, sessions: nat -> string, now: nat)
    ensures var t := Step(s, Heartbeat(node, createdAt, now), sessions);
            if s.stopped || node == s.me || node !in s.peers then t == s
            else
              var peer := s.peers[node];
              var u := s.(peers := s.peers[node := Peer(peer.pubkey, Greater(peer.lastSeen, createdAt))]);
              if Free(u, node, now) then SameButLinks(u, t) && Opens(u, t, node, sessions(s.created), now) else t == u
  {
    hide StrLess;
    if node in s.peers {
      var peer := s.peers[node];
      ConnectsIfFree(s.(peers := s.peers[node := Peer(peer.pubkey, Greater(peer.lastSeen, createdAt))]),
                     node, sessions, now);
    }
    hide MaybeConnect;
  }

  /** A row of a peer's table introduces an unknown node, and no other. */
  lemma IntroductionEffect(s: State, node: string, pubkey: string, lastSeen: real, sessions: nat -> string, now: nat)
    ensures var t := Step(s, Introduction(node, pubkey, lastSeen, now), sessions);
            var u := s.(peers := s.peers[node := Peer(pubkey, lastSeen)]);
            if s.stopped || node == s.me || node in s.peers then t == s
            else if Free(u, node, now) then SameButLinks(u, t) && Opens(u, t, node, sessions(s.created), now)
            else t == u
  {
    hide StrLess;
    ConnectsIfFree(s.(peers := s.peers[node := Peer(pubkey, lastSeen)]), node, sessions, now);
    hide MaybeConnect;
  }

  /** A retry connects exactly when nothing is in the way. */
  lemma RetryEffect(s: State, node: string, sessions: nat -> string, now: nat)
    ensures var t := Step(s, Retry(node, now), sessions);
            if Free(s, node, now) then SameButLinks(s, t) && Opens(s, t, node, sessions(s.created), now) else t == s
  {
    ConnectsIfFree(s, node, sessions, now);
    hide MaybeConnect, StrLess;
  }

  // ------------------------------------------------------------ filling slots

  /** Whom free slots are for: as `Free`, one at a time. */
  function Waiting(s: State, now: nat): string -> bool {
    (id: string) => && id !in s.links && StrLess(s.me, id) && id in s.peers
                    && (id in s.attempts ==> s.attempts[id].nextAt <= now as real)
  }

  /** The best ranked of them, as many as there are slots free. */
  function Chosen(s: State, now: nat): seq<string> {
    var waiting, free := Filter(s.priority, Waiting(s, now)), 8 - |s.links|;
    if free <= 0 then [] else if free < |waiting| then waiting[..free] else waiting
  }

  lemma ChosenAreTargets(s: State, now: nat)
    ensures SlotTargets(s, now) == Chosen(s, now)
  {
    hide StrLess;
    FilterSame(s.priority, Waiting(s, now), Discovery.Eligible(s.links.Keys, Skip(s, now)));
    assert |s.links.Keys| == |s.links|;
  }

  /** What connections to a list of nodes leave: theirs, each under its key and a fresh
      session, and all that stood before. */
  ghost predicate OpensAll(s: State, t: State, nodes: seq<string>, sessions: nat -> string, now: nat) {
    && SameButLinks(s, t) && t.closed == s.closed && t.created == s.created + |nodes|
    && (forall n :: n in t.links <==> n in s.links || n in nodes)
    && (forall n :: n in s.links ==> t.links[n] == s.links[n])
    && forall i :: 0 <= i < |nodes| ==>
                     nodes[i] in t.links && nodes[i] in s.peers
                     && t.links[nodes[i]] == Link(s.created + i, sessions(s.created + i), true, false,
                                                  s.peers[nodes[i]].pubkey, {}, 0, false, (now / 1000) as real)
  }

  lemma {:induction false} InitiateAllOpens(s: State, nodes: seq<string>, sessions: nat -> string, now: nat)
    requires Distinct(nodes) && forall n :: n in nodes ==> n in s.peers && n !in s.links
    ensures OpensAll(s, InitiateAll(s, nodes, sessions, now), nodes, sessions, now)
  {
    if |nodes| > 0 {
      var rest, node := nodes[..|nodes| - 1], nodes[|nodes| - 1];
      assert nodes == rest + [node] && node in nodes;
      InitiateAllOpens(s, rest, sessions, now);
      OpensOneMore(s, InitiateAll(s, rest, sessions, now), rest, node, sessions, now);
    }
  }

  lemma OpensOneMore(s: State, t: State, rest: seq<string>, node: string, sessions: nat -> string, now: nat)
    requires OpensAll(s, t, rest, sessions, now) && Distinct(rest + [node]) && node in s.peers && node !in s.links
    ensures OpensAll(s, Initiate(t, node, sessions, now), rest + [node], sessions, now)
  {
    var nodes, u := rest + [node], Initiate(t, node, sessions, now);
    assert nodes[|rest|] == node;
    assert forall n :: n in nodes <==> n in rest || n == node;
    forall i | 0 <= i < |rest| ensures nodes[i] == rest[i] && rest[i] != node {
      assert nodes[i] != nodes[|rest|];
    }
    hide Distinct;
    assert u.links == t.links[node := Link(s.created + |rest|, sessions(s.created + |rest|), true, false,
                                           s.peers[node].pubkey, {}, 0, false, (now / 1000) as real)];
  }

  lemma ChosenAreFree(s: State, now: nat)
    requires Distinct(s.priority)
    ensures Distinct(Chosen(s, now)) && forall n :: n in Chosen(s, now) ==> n in s.peers && n !in s.links
  {
    FilterMembers(s.priority, Waiting(s, now));
    FilterDistinct(s.priority, Waiting(s, now));
    hide StrLess, Filter;
    forall n | n in Chosen(s, now) ensures n in s.peers && n !in s.links {
      assert n in Filter(s.priority, Waiting(s, now));
    }
  }

  /** A free slot goes to the best ranked nodes that nothing is in the way of, and every
      such node gets one as long as there are slots. */
  lemma SlotsEffect(s: State, sessions: nat -> string, now: nat)
    requires Distinct(s.priority)
    ensures var t := Step(s, FreeSlot(now), sessions);
            if s.stopped then t == s else OpensAll(s, t, Chosen(s, now), sessions, now)
  {
    ChosenAreTargets(s, now);
    ChosenAreFree(s, now);
    hide Chosen, SlotTargets, OpensAll, InitiateAll;
    InitiateAllOpens(s, Chosen(s, now), sessions, now);
  }

  /** A new ranking is kept, and the slots are filled by it. */
  lemma PriorityEffect(s: State, candidates: seq<Discovery.Candidate>, sessions: nat -> string, now: nat)
    ensures Step(s, SetPriority(candidates, now), sessions)
            == Step(s.(priority := Discovery.NodesOf(Discovery.RankCandidates(candidates, now / 1000))),
                    FreeSlot(now), sessions)
  {
  }

  lemma {:induction false} InitiatingKeepsPriority(s: State, nodes: seq<string>, sessions: nat -> string, now: nat)
    ensures InitiateAll(s, nodes, sessions, now).priority == s.priority
  {
    if |nodes| > 0 {
      InitiatingKeepsPriority(s, nodes[..|nodes| - 1], sessions, now);
    }
  }

  lemma FillingKeepsPriority(s: State, sessions: nat -> string, now: nat)
    ensures Step(s, FreeSlot(now), sessions).priority == s.priority
  {
    InitiatingKeepsPriority(s, SlotTargets(s, now), sessions, now);
  }

  // ---------------------------------------------------------------- parting

  /** Nothing is left of the node, its connection is closed, and nobody else is touched. */
  predicate Gone(s: State, t: State, node: string) {
    && t.peers == s.peers - {node} && t.links == s.links - {node} && t.attempts == s.attempts - {node}
    && t.closed == s.closed + (if node in s.links then {s.links[node].serial} else {})
    && t.me == s.me && t.stopped == s.stopped && t.priority == s.priority && t.decrypting == s.decrypting
    && t.created == s.created
  }

  /** A LEAVE counts unless it is older than what was seen of the node, or an open channel
      proves it wrong. */
  lemma LeaveEffect(s: State, node: string, createdAt: real, ready: bool, sessions: nat -> string)
    ensures var t := Step(s, Leave(node, createdAt, ready), sessions);
            if && !s.stopped && node != s.me && (node in s.peers ==> s.peers[node].lastSeen <= createdAt)
               && !(node in s.links && s.links[node].open && ready)
            then Gone(s, t, node) else t == s
  {
    RemovalEffect(s, node, sessions);
    hide RemovePeer;
  }

  lemma RemovalEffect(s: State, node: string, sessions: nat -> string)
    ensures Gone(s, Step(s, Removal(node), sessions), node)
  {
    if node !in s.links {
      assert s.links - {node} == s.links;
    }
  }

  /** Exactly the peers last seen longer ago than the time to live go, unless an open
      channel shows them alive; nobody else is touched. */
  lemma PruneEffect(s: State, at: int, ttl: int, ready: set<string>, sessions: nat -> string, node: string)
    ensures var t := Step(s, Pruning(at, ttl, ready), sessions);
            var stale := && node in s.peers && s.peers[node].lastSeen < at as real - ttl as real
                         && !(node in s.links && s.links[node].open && node in ready);
            && (node in t.peers <==> node in s.peers && !stale) && (node in t.links <==> node in s.links && !stale)
            && (node in t.attempts <==> node in s.attempts && !stale)
            && (node in t.peers ==> t.peers[node] == s.peers[node])
            && (node in t.links ==> t.links[node] == s.links[node])
            && (node in t.attempts ==> t.attempts[node] == s.attempts[node])
            && (stale && node in s.links ==> s.links[node].serial in t.closed)
            && t.me == s.me && t.stopped == s.stopped && t.priority == s.priority && t.decrypting == s.decrypting
  {
  }

  /** After the stop there are no links. */
  lemma ShutdownEffect(s: State, sessions: nat -> string)
    ensures var t := Step(s, ShutDown, sessions);
            && t.stopped && t.links == map[] && (forall n :: n in s.links ==> s.links[n].serial in t.closed)
            && t.peers == s.peers && t.attempts == s.attempts && t.priority == s.priority
            && t.decrypting == s.decrypting && t.created == s.created && t.me == s.me
  {
  }

  // ---------------------------------------------------------------- signals

  /** A signal is taken up exactly if it is for us, from a known peer and under its key. */
  lemma ArrivalEffect(s: State, target: string, sig: Signal, sessions: nat -> string)
    ensures var t := Step(s, Arrive(target, sig), sessions);
            if && !s.stopped && sig.from != s.me && target == s.me
               && sig.from in s.peers && s.peers[sig.from].pubkey == sig.pubkey
            then t == s.(decrypting := s.decrypting + multiset{sig}) else t == s
  {
  }

  /** An offer is answered if there is no link and room for one, or if it is of another
      session, strictly newer, and does not meet our own offer still under way. */
  predicate Answerable(s: State, sig: Signal) {
    if sig.from in s.links then
      var link := s.links[sig.from];
      link.session != sig.session && link.startedAt < sig.createdAt && !(link.initiator && !link.open)
    else |s.links| < 16
  }

  /** The offer's connection takes the place of the node's old one, which is closed. */
  predicate Answers(s: State, t: State, sig: Signal) {
    && sig.from in t.links && t.links == s.links[sig.from := t.links[sig.from]] && t.created == s.created + 1
    && t.closed == s.closed + (if sig.from in s.links then {s.links[sig.from].serial} else {})
    && var link := t.links[sig.from];
       && link.serial == s.created && link.session == sig.session && link.startedAt == sig.createdAt
       && link.peerPubkey == sig.pubkey && link.rxSeen == {sig.seqNo}
       && !link.initiator && !link.open && !link.haveRemote && link.pending == 0
  }

  lemma OfferFacts(s: State, node: string)
    requires MeshInvariant.Inv(s) && node in s.links
    ensures |s.links - {node}| < 16 && (s.links[node].initiator ==> StrLess(s.me, node))
  {
    assert (s.links - {node}).Keys == s.links.Keys - {node};
    hide StrLess, Distinct, Accounted;
  }

  lemma DropThenEnter(links: Links, node: string, link: Link)
    ensures (links - {node})[node := link] == links[node := link]
  {
  }

  lemma ReplacementEffect(s: State, sig: Signal)
    requires sig.from in s.links && |s.links - {sig.from}| < 16
    ensures var t := DropById(s, sig.from);
            var u := NewLink(t, sig.from, sig.session, false, sig.pubkey, sig.createdAt, {sig.seqNo});
            SameButLinks(s, u) && Answers(s, u, sig)
  {
    DropThenEnter(s.links, sig.from,
                  Link(s.created, sig.session, false, false, sig.pubkey, {sig.seqNo}, 0, false, sig.createdAt));
  }

  lemma OfferToLinked(s: State, sig: Signal)
    requires sig.from in s.links && |s.links - {sig.from}| < 16
    requires s.links[sig.from].initiator ==> StrLess(s.me, sig.from)
    ensures var t := OnOffer(s, sig).0;
            SameButLinks(s, t) && if Answerable(s, sig) then Answers(s, t, sig) else t == s
  {
    ReplacementEffect(s, sig);
    SameAsItself(s);
    hide StrLess, SameButLinks, Answers, NewLink;
  }

  lemma OfferToUnlinked(s: State, sig: Signal)
    requires sig.from !in s.links
    ensures var t := OnOffer(s, sig).0;
            SameButLinks(s, t) && if Answerable(s, sig) then Answers(s, t, sig) else t == s
  {
    hide StrLess;
  }

  /** Under the mesh's invariant an offer is answered exactly as it should be, and otherwise
      changes nothing. */
  lemma OfferEffect(s: State, sig: Signal)
    requires MeshInvariant.Inv(s)
    ensures var t := OnOffer(s, sig).0;
            SameButLinks(s, t) && if Answerable(s, sig) then Answers(s, t, sig) else t == s
  {
    hide *;
    if sig.from in s.links {
      OfferFacts(s, sig.from);
      OfferToLinked(s, sig);
    } else {
      OfferToUnlinked(s, sig);
    }
  }

  lemma SameAsItself(s: State)
    ensures SameButLinks(s, s)
  {
  }

  /** A reply is taken once, by the link of its very session; a candidate that comes
      before the remote description waits, and at most 64 do. */
  lemma ReplyEffect(s: State, sig: Signal)
    ensures var t := OnReply(s, sig);
            if sig.from in s.links && s.links[sig.from].session == sig.session && sig.seqNo !in s.links[sig.from].rxSeen
            then
              && SameButLinks(s, t) && t.created == s.created && t.closed == s.closed
              && sig.from in t.links && t.links == s.links[sig.from := t.links[sig.from]]
              && var prior, link := s.links[sig.from], t.links[sig.from];
                 && link.rxSeen == prior.rxSeen + {sig.seqNo}
                 && link.pending == (if sig.payload == Ice(false) && !prior.haveRemote && prior.pending < 64
                                     then prior.pending + 1 else prior.pending)
                 && link.(rxSeen := prior.rxSeen, pending := prior.pending) == prior
            else t == s
  {
  }

  /** A decrypted signal is handled once for each time it was taken up. */
  lemma DecryptedEffect(s: State, sig: Signal, sessions: nat -> string)
    ensures var t := Step(s, Decrypted(sig), sessions);
            var u := s.(decrypting := s.decrypting - multiset{sig});
            if sig !in s.decrypting then t == s
            else if sig.payload == Offer then t == OnOffer(u, sig).0 else t == OnReply(u, sig)
    ensures Step(s, Undecryptable(sig), sessions) == s.(decrypting := s.decrypting - multiset{sig})
  {
    hide OnOffer, OnReply;
  }

  // ------------------------------------------------------- one connection

  /** The events of a connection count only while it is its node's. */
  lemma StaleConnection(s: State, node: string, serial: nat, now: nat, random: real, sessions: nat -> string)
    requires !(node in s.links && s.links[node].serial == serial)
    ensures Step(s, RemoteSet(node, serial), sessions) == s
    ensures Step(s, ChannelOpen(node, serial), sessions) == s
    ensures Step(s, Failure(node, serial, now, random), sessions) == s
  {
  }

  /** The delay doubles from four seconds to a minute. */
  function Doubling(failures: nat): nat
    decreases failures
  {
    if failures <= 1 then 4000
    else if 2 * Doubling(failures - 1) > 60000 then 60000 else 2 * Doubling(failures - 1)
  }

  lemma {:induction false} DelayDoubles(count: nat)
    ensures Delay(count) == Doubling(count)
  {
    if count > 1 {
      DelayDoubles(count - 1);
    }
  }

  /** Its remote description ends the waiting of candidates, and its open channel ends the
      backoff. */
  lemma ConnectionEffects(s: State, node: string, sessions: nat -> string)
    requires node in s.links
    ensures var link := s.links[node];
            && Step(s, RemoteSet(node, link.serial), sessions)
               == s.(links := s.links[node := link.(haveRemote := true, pending := 0)])
            && Step(s, ChannelOpen(node, link.serial), sessions)
               == s.(links := s.links[node := link.(open := true)], attempts := s.attempts - {node})
  {
  }

  /** Its failure drops it and leaves the node alone for a share of the delay. */
  lemma FailureEffect(s: State, node: string, now: nat, random: real, sessions: nat -> string)
    requires node in s.links
    ensures var link, failures := s.links[node], if node in s.attempts then s.attempts[node].count + 1 else 1;
            var t := Step(s, Failure(node, link.serial, now, random), sessions);
            && t.links == s.links - {node} && t.closed == s.closed + {link.serial}
            && t.attempts == s.attempts[node := Attempt(failures, now as real + Wait(Doubling(failures), random))]
            && t.me == s.me && t.stopped == s.stopped && t.peers == s.peers && t.priority == s.priority
            && t.decrypting == s.decrypting && t.created == s.created
  {
    FailureDropsAndRecords(s, node, now, random, sessions);
    hide Step;
    RecordEffect(DropById(s, node), node, now, random);
    hide RecordFailure, Doubling, Wait;
  }

  lemma FailureDropsAndRecords(s: State, node: string, now: nat, random: real, sessions: nat -> string)
    requires node in s.links
    ensures Step(s, Failure(node, s.links[node].serial, now, random), sessions)
            == RecordFailure(DropById(s, node), node, now, random)
  {
    hide RecordFailure, DropById;
  }

  lemma RecordEffect(s: State, node: string, now: nat, random: real)
    ensures var failures := if node in s.attempts then s.attempts[node].count + 1 else 1;
            RecordFailure(s, node, now, random)
            == s.(attempts := s.attempts[node := Attempt(failures, now as real + Wait(Doubling(failures), random))])
  {
    DelayDoubles(if node in s.attempts then s.attempts[node].count + 1 else 1);
    hide Delay, Doubling, Wait;
  }
}
