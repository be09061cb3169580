/** What every run of the mesh keeps: the two caps, one initiator per pair, and no
    connection ever lost from sight. */
module MeshInvariant {
  import opened Basics
  import opened Ordering
  import opened MeshTable
  import Discovery

  function Initiated(links: map<string, Link>): set<string> {
    set n | n in links && links[n].initiator
  }

  type Links = map<string, Link>

  /** The smaller id initiates. */
  ghost predicate Roles(me: string, links: Links) {
    forall n :: n in links ==> n != me && (links[n].initiator ==> StrLess(me, n))
  }

  ghost predicate Held(links: Links, k: nat) {
    exists n :: n in links && links[n].serial == k
  }

  /** Every connection ever made is either the current one of some node or dropped. */
  ghost predicate Accounted(links: Links, created: nat, closed: set<nat>) {
    && (forall k: nat :: k < created ==> k in closed || Held(links, k))
    && (forall n :: n in links ==> links[n].serial < created && links[n].serial !in closed)
    && (forall k :: k in closed ==> k < created)
    && (forall n, m :: n in links && m in links && n != m ==> links[n].serial != links[m].serial)
  }

  ghost predicate Caps(links: Links) {
    && |links| <= MAX_TOTAL_LINKS && |Initiated(links)| <= MAX_ACTIVE_LINKS
    && forall n :: n in links ==> links[n].pending <= MAX_PENDING_CANDIDATES
  }

  ghost predicate Table(me: string, links: Links, created: nat, closed: set<nat>) {
    Caps(links) && Roles(me, links) && Accounted(links, created, closed)
  }

  ghost predicate Inv(s: State) {
    && Table(s.me, s.links, s.created, s.closed) && Distinct(s.priority)
    && forall sig :: sig in s.decrypting ==> sig.from != s.me
  }

  // ------------------------------------------------------- the table of links

  lemma CapsAdd(links: Links, node: string, link: Link)
    requires Caps(links) && node !in links && link.pending <= MAX_PENDING_CANDIDATES
    requires if link.initiator then |links| < MAX_ACTIVE_LINKS else |links| < MAX_TOTAL_LINKS
    ensures Caps(links[node := link]) && |links[node := link]| == |links| + 1
  {
    var more := links[node := link];
    assert more.Keys == links.Keys + {node};
    if link.initiator {
      SubsetSize(Initiated(more), more.Keys);
    } else {
      assert Initiated(more) == Initiated(links);
    }
  }

  lemma AccountedAdd(links: Links, created: nat, closed: set<nat>, node: string, link: Link)
    requires Accounted(links, created, closed) && node !in links && link.serial == created
    ensures Accounted(links[node := link], created + 1, closed)
  {
    var more := links[node := link];
    forall k: nat | k < created + 1 && k !in closed ensures Held(more, k) {
      if k < created {
        var n :| n in links && links[n].serial == k;
        assert n in more && more[n].serial == k;
      } else {
        assert node in more && more[node].serial == k;
      }
    }
  }

  lemma TableAdd(me: string, links: Links, created: nat, closed: set<nat>, node: string, link: Link)
    requires Table(me, links, created, closed) && node !in links && node != me
    requires link.serial == created && link.pending <= MAX_PENDING_CANDIDATES
    requires if link.initiator then StrLess(me, node) && |links| < MAX_ACTIVE_LINKS else |links| < MAX_TOTAL_LINKS
    ensures Table(me, links[node := link], created + 1, closed) && |links[node := link]| == |links| + 1
  {
    CapsAdd(links, node, link);
    AccountedAdd(links, created, closed, node, link);
    hide Caps, Accounted, StrLess;
  }

  lemma TableWithout(me: string, links: Links, created: nat, closed: set<nat>, gone: set<string>)
    requires Table(me, links, created, closed)
    ensures Table(me, links - gone, created, closed + Serials(links, gone))
  {
    CapsWithout(links, gone);
    AccountedWithout(links, created, closed, gone);
    hide StrLess, Caps, Accounted;
  }

  lemma CapsWithout(links: Links, gone: set<string>)
    requires Caps(links)
    ensures Caps(links - gone)
  {
    SubsetSize((links - gone).Keys, links.Keys);
    SubsetSize(Initiated(links - gone), Initiated(links));
  }

  lemma AccountedWithout(links: Links, created: nat, closed: set<nat>, gone: set<string>)
    requires Accounted(links, created, closed)
    ensures Accounted(links - gone, created, closed + Serials(links, gone))
  {
    var rest, dropped := links - gone, Serials(links, gone);
    forall k: nat | k < created && k !in closed + dropped ensures Held(rest, k) {
      var n :| n in links && links[n].serial == k;
      assert n !in gone;
      assert n in rest && rest[n].serial == k;
    }
  }

  /** A link may change anything but its identity and its role. */
  lemma TableUpdate(me: string, links: Links, created: nat, closed: set<nat>, node: string, link: Link)
    requires Table(me, links, created, closed) && node in links && link.serial == links[node].serial
    requires link.initiator == links[node].initiator && link.pending <= MAX_PENDING_CANDIDATES
    ensures Table(me, links[node := link], created, closed)
  {
    CapsUpdate(links, node, link);
    AccountedUpdate(links, created, closed, node, link);
    hide StrLess, Caps, Accounted;
  }

  lemma CapsUpdate(links: Links, node: string, link: Link)
    requires Caps(links) && node in links
    requires link.initiator == links[node].initiator && link.pending <= MAX_PENDING_CANDIDATES
    ensures Caps(links[node := link])
  {
    assert links[node := link].Keys == links.Keys && Initiated(links[node := link]) == Initiated(links);
  }

  lemma AccountedUpdate(links: Links, created: nat, closed: set<nat>, node: string, link: Link)
    requires Accounted(links, created, closed) && node in links && link.serial == links[node].serial
    ensures Accounted(links[node := link], created, closed)
  {
    var t := links[node := link];
    forall k: nat | Held(links, k) ensures Held(t, k) {
      var n :| n in links && links[n].serial == k;
      assert n in t && t[n].serial == k;
    }
  }

  // ---------------------------------------------------------- link by link

  lemma NewLinkKeeps(s: State, node: string, session: string, initiator: bool, pubkey: string, startedAt: real,
                     rxSeen: set<int>)
    requires Inv(s) && node !in s.links && node != s.me
    requires if initiator then StrLess(s.me, node) && |s.links| < MAX_ACTIVE_LINKS else |s.links| < MAX_TOTAL_LINKS
    ensures var t := NewLink(s, node, session, initiator, pubkey, startedAt, rxSeen);
            Inv(t) && |t.links| == |s.links| + 1
  {
    hide Table, StrLess;
    TableAdd(s.me, s.links, s.created, s.closed, node,
             NewLink(s, node, session, initiator, pubkey, startedAt, rxSeen).links[node]);
  }

  lemma DropKeeps(s: State, node: string)
    requires Inv(s)
    ensures Inv(DropById(s, node)) && node !in DropById(s, node).links
    ensures node in s.links ==> |DropById(s, node).links| == |s.links| - 1
    ensures DropById(s, node).me == s.me
  {
    hide Table;
    if node in s.links {
      TableWithout(s.me, s.links, s.created, s.closed, {node});
      assert Serials(s.links, {node}) == {s.links[node].serial};
      assert (s.links - {node}).Keys == s.links.Keys - {node};
    }
  }

  /** Nothing but the dropped connection goes: every other one stays held. */
  lemma OnlyOneIsDropped(s: State, node: string, k: nat)
    requires Inv(s) && node in s.links
    ensures Held(DropById(s, node).links, k) <==> Held(s.links, k) && k != s.links[node].serial
  {
    var rest := DropById(s, node).links;
    hide Caps, Roles, Distinct;
    if Held(s.links, k) && k != s.links[node].serial {
      var n :| n in s.links && s.links[n].serial == k;
      assert n in rest && rest[n].serial == k;
    }
  }

  lemma WithoutKeeps(s: State, gone: set<string>)
    requires Inv(s)
    ensures Inv(Without(s, gone))
  {
    hide Table;
    TableWithout(s.me, s.links, s.created, s.closed, gone);
  }

  lemma UpdateKeeps(s: State, node: string, link: Link)
    requires Inv(s) && node in s.links && link.serial == s.links[node].serial
    requires link.initiator == s.links[node].initiator && link.pending <= MAX_PENDING_CANDIDATES
    ensures Inv(s.(links := s.links[node := link]))
  {
    hide Table;
    TableUpdate(s.me, s.links, s.created, s.closed, node, link);
  }

  // ------------------------------------------------------------- connecting

  lemma InitiateKeeps(s: State, node: string, sessions: nat -> string, now: nat)
    requires Inv(s) && node !in s.links && StrLess(s.me, node) && |s.links| < MAX_ACTIVE_LINKS
    ensures var t := Initiate(s, node, sessions, now);
            Inv(t) && |t.links| <= |s.links| + 1 && t.links.Keys <= s.links.Keys + {node} && t.me == s.me
  {
    StrLessTrichotomy(s.me, node);
    if node in s.peers {
      hide Inv;
      NewLinkKeeps(s, node, sessions(s.created), true, s.peers[node].pubkey, Seconds(now) as real, {});
    }
  }

  lemma {:induction false} InitiateAllKeeps(s: State, nodes: seq<string>, sessions: nat -> string, now: nat)
    requires Inv(s) && Distinct(nodes) && |s.links| + |nodes| <= MAX_ACTIVE_LINKS
    requires forall n :: n in nodes ==> n !in s.links && StrLess(s.me, n)
    ensures var t := InitiateAll(s, nodes, sessions, now);
            && Inv(t) && |t.links| <= |s.links| + |nodes| && t.me == s.me
            && forall n :: n in t.links ==> n in s.links || n in nodes
  {
    if |nodes| > 0 {
      var rest, node := nodes[..|nodes| - 1], nodes[|nodes| - 1];
      assert nodes == rest + [node];
      InitiateAllKeeps(s, rest, sessions, now);
      hide Inv, Initiate;
      InitiateKeeps(InitiateAll(s, rest, sessions, now), node, sessions, now);
    }
  }

  lemma FillSlotsKeeps(s: State, sessions: nat -> string, now: nat)
    requires Inv(s)
    ensures Inv(FillSlots(s, sessions, now))
  {
    var eligible := Filter(s.priority, Discovery.Eligible(s.links.Keys, Skip(s, now)));
    FilterMembers(s.priority, Discovery.Eligible(s.links.Keys, Skip(s, now)));
    FilterDistinct(s.priority, Discovery.Eligible(s.links.Keys, Skip(s, now)));
    var nodes := SlotTargets(s, now);
    forall n | n in nodes ensures n !in s.links && StrLess(s.me, n) {
      assert n in eligible;
    }
    if |nodes| > 0 {
      assert |s.links.Keys| == |s.links|;
      InitiateAllKeeps(s, nodes, sessions, now);
    }
  }

  lemma MaybeConnectKeeps(s: State, node: string, sessions: nat -> string, now: nat)
    requires Inv(s)
    ensures Inv(MaybeConnect(s, node, sessions, now))
  {
    hide Inv, Initiate;
    if !s.stopped && node !in s.links && StrLess(s.me, node) && !BackingOff(s, node, now)
       && |s.links| < MAX_ACTIVE_LINKS {
      InitiateKeeps(s, node, sessions, now);
    }
  }

  // ----------------------------------------------------------------- signals

  /** Answering an offer keeps everything. */
  lemma OfferKeeps(s: State, sig: Signal)
    requires Inv(s) && sig.from != s.me
    ensures Inv(OnOffer(s, sig).0)
  {
    hide Inv, DropById, NewLink, StrLess;
    DropKeeps(s, sig.from);
    var t := DropById(s, sig.from);
    if |t.links| < MAX_TOTAL_LINKS {
      NewLinkKeeps(t, sig.from, sig.session, false, sig.pubkey, sig.createdAt, {sig.seqNo});
    }
  }

  /** The branch that yields to a smaller id never runs, room to replace a
      connection never lacks, and a connection is replaced only by a newer one. */
  lemma OfferReplacesOnlyOlder(s: State, sig: Signal)
    requires Inv(s)
    ensures OnOffer(s, sig).1 != Answering(true) && OnOffer(s, sig).1 != CapReached(true)
    ensures sig.from in s.links ==> OnOffer(s, sig).1 != CapReached(false)
    ensures var t := OnOffer(s, sig).0;
            sig.from in s.links ==>
              && sig.from in t.links
              && (t.links[sig.from] == s.links[sig.from]
                  || (t.links[sig.from].serial == s.created
                    && t.links[sig.from].startedAt > s.links[sig.from].startedAt))
  {
    if sig.from in s.links {
      DropKeeps(s, sig.from);
      assert |DropById(s, sig.from).links| < MAX_TOTAL_LINKS;
      assert s.links[sig.from].initiator ==> StrLess(s.me, sig.from);
    }
    hide Inv, StrLess;
  }

  lemma ReplyKeeps(s: State, sig: Signal)
    requires Inv(s)
    ensures Inv(OnReply(s, sig))
  {
    if sig.from in s.links {
      assert s.links[sig.from].pending <= MAX_PENDING_CANDIDATES;
      hide Inv;
      UpdateKeeps(s, sig.from, Received(s.links[sig.from], sig));
    }
  }

  lemma DecryptedKeeps(s: State, sig: Signal)
    requires Inv(s)
    ensures Inv(OnDecrypted(s, sig))
  {
    hide Table, OnOffer, OnReply, Distinct;
    if sig in s.decrypting {
      var t := s.(decrypting := s.decrypting - multiset{sig});
      if sig.payload == Offer {
        OfferKeeps(t, sig);
      } else {
        ReplyKeeps(t, sig);
      }
    }
  }

  // -------------------------------------------------------------------- runs

  lemma PriorityKeeps(s: State, candidates: seq<Discovery.Candidate>, sessions: nat -> string, now: nat)
    requires Inv(s) && Distinct(candidates) && Discovery.DistinctNodes(candidates)
    ensures Inv(Step(s, SetPriority(candidates, now), sessions))
  {
    hide Table, FillSlots, Distinct;
    Discovery.RankingHasNoRepeats(candidates, Seconds(now));
    var ranked := Discovery.NodesOf(Discovery.RankCandidates(candidates, Seconds(now)));
    FillSlotsKeeps(s.(priority := ranked), sessions, now);
  }

  /** Who is known, and in what order, does not matter to the links. */
  lemma PeersAreFree(s: State, peers: map<string, Peer>)
    requires Inv(s)
    ensures Inv(s.(peers := peers))
  {
    hide Table, Distinct;
  }

  lemma PriorityIsFree(s: State, priority: seq<string>)
    requires Inv(s) && Distinct(priority)
    ensures Inv(s.(priority := priority))
  {
    hide Table, Distinct;
  }

  lemma PeerStepKeeps(s: State, op: Op, sessions: nat -> string)
    requires Inv(s) && (op.Join? || op.Heartbeat? || op.Introduction? || op.Retry?)
    ensures Inv(Step(s, op, sessions))
  {
    hide Table, MaybeConnect, Distinct;
    MaybeConnectKeeps(s, op.node, sessions, op.now);
    forall peers ensures Inv(MaybeConnect(s.(peers := peers), op.node, sessions, op.now)) {
      MaybeConnectKeeps(s.(peers := peers), op.node, sessions, op.now);
    }
  }

  lemma RemovePeerKeeps(s: State, node: string)
    requires Inv(s)
    ensures Inv(RemovePeer(s, node))
  {
    DropKeeps(s, node);
    hide Table, DropById, Distinct;
  }

  /** What happens to the current connection of a node. */
  lemma CurrentKeeps(s: State, node: string)
    requires Inv(s) && node in s.links
    ensures Inv(s.(links := s.links[node := s.links[node].(haveRemote := true, pending := 0)]))
    ensures Inv(s.(links := s.links[node := s.links[node].(open := true)]))
    ensures Inv(DropById(s, node))
  {
    var link := s.links[node];
    assert link.pending <= MAX_PENDING_CANDIDATES;
    hide Inv;
    UpdateKeeps(s, node, link.(haveRemote := true, pending := 0));
    UpdateKeeps(s, node, link.(open := true));
    DropKeeps(s, node);
  }

  lemma LinkStepKeeps(s: State, op: Op, sessions: nat -> string)
    requires Inv(s) && (op.RemoteSet? || op.ChannelOpen? || op.Failure?)
    ensures Inv(Step(s, op, sessions))
  {
    hide Table, DropById, Distinct;
    if Current(s, op.node, op.serial) {
      CurrentKeeps(s, op.node);
    }
  }

  lemma ShutdownKeeps(s: State)
    requires Inv(s)
    ensures Inv(Shutdown(s))
  {
    hide Table, Distinct;
    TableWithout(s.me, s.links, s.created, s.closed, s.links.Keys);
    assert s.links - s.links.Keys == map[];
  }

  /** Every step keeps the invariant. */
  lemma StepKeeps(s: State, op: Op, sessions: nat -> string)
    requires Inv(s) && Keyed(op)
    ensures Inv(Step(s, op, sessions))
  {
    hide Table, Distinct;
    match op
    case Join(_, _, _, _) => PeerStepKeeps(s, op, sessions);
    case Heartbeat(_, _, _) => PeerStepKeeps(s, op, sessions);
    case Introduction(_, _, _, _) => PeerStepKeeps(s, op, sessions);
    case Retry(_, _) => PeerStepKeeps(s, op, sessions);
    case Leave(node, _, _) => hide Inv; RemovePeerKeeps(s, node);
    case Removal(node) => hide Inv; RemovePeerKeeps(s, node);
    case Arrive(target, sig) => hide Table, Distinct;
    case Decrypted(sig) => DecryptedKeeps(s, sig);
    case Undecryptable(sig) => hide Table, Distinct;
    case SetPriority(candidates, now) => PriorityKeeps(s, candidates, sessions, now);
    case FreeSlot(now) => FillSlotsKeeps(s, sessions, now);
    case RemoteSet(_, _) => LinkStepKeeps(s, op, sessions);
    case ChannelOpen(_, _) => LinkStepKeeps(s, op, sessions);
    case Failure(_, _, _, _) => LinkStepKeeps(s, op, sessions);
    case Pruning(at, ttl, ready) => WithoutKeeps(s, set n | n in s.peers && Stale(s, n, at, ttl, ready));
    case ShutDown => ShutdownKeeps(s);
  }

  /** In every reachable state the mesh has at most 16 links, at most 8 of them
      opened by us, each of those to a node with a larger id, and every connection
      ever made is current or closed. */
  lemma {:induction false} RunKeepsInv(me: string, ops: seq<Op>, sessions: nat -> string)
    requires AllKeyed(ops)
    ensures Inv(Run(me, ops, sessions))
  {
    if |ops| > 0 {
      RunKeepsInv(me, ops[..|ops| - 1], sessions);
      hide Inv, Step;
      StepKeeps(Run(me, ops[..|ops| - 1], sessions), ops[|ops| - 1], sessions);
    }
  }

  /** Why the priority list must not repeat a node: filling the slots would open two
      connections to it and lose sight of the first. */
  lemma RepeatedPriorityLeaks(sessions: nat -> string, pubkey: string, now: nat)
    ensures var s := Init("a").(peers := map["b" := Peer(pubkey, 0.0)], priority := ["b", "b"]);
            var t := FillSlots(s, sessions, now);
            t.created == 2 && 0 !in t.closed && !Held(t.links, 0)
  {
    var s := Init("a").(peers := map["b" := Peer(pubkey, 0.0)], priority := ["b", "b"]);
    assert StrLess("a", "b");
    var ok := Discovery.Eligible(s.links.Keys, Skip(s, now));
    FilterAll(s.priority, ok);
    var nodes := SlotTargets(s, now);
    assert nodes == ["b", "b"];
    assert nodes[..1] == ["b"] && nodes[..1][..0] == [];
    var one := Initiate(s, "b", sessions, now);
    assert InitiateAll(s, [], sessions, now) == s;
    assert InitiateAll(s, nodes[..1], sessions, now) == one;
    assert InitiateAll(s, nodes, sessions, now) == Initiate(one, "b", sessions, now);
  }
}
