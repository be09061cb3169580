/** What the wait for a decryption can break: a signal is checked before it, and its
    offer is answered after it. */
module MeshRaces {
  import opened Ordering
  import opened MeshTable
  import Discovery

  // ------------------------------------------------- links of unknown peers

  ghost predicate PeersKnown(s: State) {
    forall n :: n in s.links ==> n in s.peers
  }

  /** An offer is answered whose sender is no longer a peer. */
  predicate Orphans(s: State, op: Op) {
    && op.Decrypted? && op.sig in s.decrypting && op.sig.payload == Offer
    && op.sig.from !in s.peers && |s.links| < MAX_TOTAL_LINKS
  }

  lemma InitiateKnown(s: State, node: string, sessions: nat -> string, now: nat)
    requires PeersKnown(s)
    ensures PeersKnown(Initiate(s, node, sessions, now)) && Initiate(s, node, sessions, now).peers == s.peers
  {
  }

  lemma {:induction false} InitiateAllKnown(s: State, nodes: seq<string>, sessions: nat -> string, now: nat)
    requires PeersKnown(s)
    ensures PeersKnown(InitiateAll(s, nodes, sessions, now)) && InitiateAll(s, nodes, sessions, now).peers == s.peers
  {
    if |nodes| > 0 {
      InitiateAllKnown(s, nodes[..|nodes| - 1], sessions, now);
      hide PeersKnown, Initiate;
      InitiateKnown(InitiateAll(s, nodes[..|nodes| - 1], sessions, now), nodes[|nodes| - 1], sessions, now);
    }
  }

  lemma ConnectingStepKnown(s: State, op: Op, sessions: nat -> string)
    requires PeersKnown(s)
    requires op.Join? || op.Heartbeat? || op.Introduction? || op.Retry? || op.SetPriority? || op.FreeSlot?
    ensures PeersKnown(Step(s, op, sessions))
  {
    if op.FreeSlot? || op.SetPriority? {
      hide SlotTargets;
      var t := if op.SetPriority?
               then s.(priority := Discovery.NodesOf(Discovery.RankCandidates(op.candidates, Seconds(op.now)))) else s;
      InitiateAllKnown(t, SlotTargets(t, op.now), sessions, op.now);
    } else {
      hide BackingOff;
    }
  }

  lemma DecryptedKnown(s: State, sig: Signal)
    requires PeersKnown(s)
    ensures PeersKnown(OnDecrypted(s, sig)) <==> !Orphans(s, Decrypted(sig))
  {
    if sig in s.decrypting {
      OfferKnown(s.(decrypting := s.decrypting - multiset{sig}), sig);
    }
    hide OnOffer, Received;
  }

  lemma OfferKnown(s: State, sig: Signal)
    requires PeersKnown(s)
    ensures PeersKnown(OnOffer(s, sig).0) <==> sig.from in s.peers || |s.links| >= MAX_TOTAL_LINKS
  {
  }

  /** A step keeps every link's node among the peers if and only if it does not answer
      an offer whose sender has gone. */
  lemma KnownUnlessOrphaned(s: State, op: Op, sessions: nat -> string)
    requires PeersKnown(s)
    ensures PeersKnown(Step(s, op, sessions)) <==> !Orphans(s, op)
  {
    if op.Decrypted? {
      DecryptedKnown(s, op.sig);
      hide OnDecrypted;
    } else if op.Join? || op.Heartbeat? || op.Introduction? || op.Retry? || op.SetPriority? || op.FreeSlot? {
      ConnectingStepKnown(s, op, sessions);
      hide Step, PeersKnown;
    } else {
      hide FillSlots, MaybeConnect, OnDecrypted, Stale;
    }
  }

  /** So in a run the link's nodes are always peers if and only if no offer is answered
      for a sender that has gone. */
  lemma AlwaysKnownIffNoneOrphaned(me: string, ops: seq<Op>, sessions: nat -> string)
    ensures (forall k :: 0 <= k <= |ops| ==> PeersKnown(Run(me, ops[..k], sessions))) <==>
            (forall k :: 0 <= k < |ops| ==> !Orphans(Run(me, ops[..k], sessions), ops[k]))
  {
    hide PeersKnown, Orphans, Step;
    NewIsKnown(me, sessions);
    assert ops[..0] == [];
    forall k | 0 <= k < |ops| && PeersKnown(Run(me, ops[..k], sessions))
      ensures PeersKnown(Run(me, ops[..k + 1], sessions)) <==> !Orphans(Run(me, ops[..k], sessions), ops[k])
    {
      KnownUnlessOrphaned(Run(me, ops[..k], sessions), ops[k], sessions);
      RunStep(me, ops, k, sessions);
    }
    if forall k :: 0 <= k <= |ops| ==> PeersKnown(Run(me, ops[..k], sessions)) {
      forall k | 0 <= k < |ops| ensures !Orphans(Run(me, ops[..k], sessions), ops[k]) {
        assert PeersKnown(Run(me, ops[..k], sessions)) && PeersKnown(Run(me, ops[..k + 1], sessions));
      }
    }
    if forall k :: 0 <= k < |ops| ==> !Orphans(Run(me, ops[..k], sessions), ops[k]) {
      var k := 0;
      while k < |ops|
        invariant 0 <= k <= |ops| && forall j :: 0 <= j <= k ==> PeersKnown(Run(me, ops[..j], sessions))
      {
        k := k + 1;
      }
    }
  }

  lemma NewIsKnown(me: string, sessions: nat -> string)
    ensures PeersKnown(Run(me, [], sessions)) && Silent(Run(me, [], sessions))
  {
  }

  lemma RunStep(me: string, ops: seq<Op>, k: nat, sessions: nat -> string)
    requires k < |ops|
    ensures Run(me, ops[..k + 1], sessions) == Step(Run(me, ops[..k], sessions), ops[k], sessions)
  {
    assert ops[..k + 1][..k] == ops[..k];
  }

  // ---------------------------------------------------- links after shutdown

  /** A stopped mesh has no links. */
  predicate Silent(s: State) {
    s.stopped ==> s.links == map[]
  }

  /** An offer is answered although the mesh has stopped. */
  predicate Revives(s: State, op: Op) {
    s.stopped && op.Decrypted? && op.sig in s.decrypting && op.sig.payload == Offer
  }

  lemma NoTargetsWhenStopped(s: State, sessions: nat -> string, now: nat)
    requires !s.stopped
    ensures !FillSlots(s, sessions, now).stopped
  {
    InitiateAllSame(s, SlotTargets(s, now), sessions, now);
  }

  lemma {:induction false} InitiateAllSame(s: State, nodes: seq<string>, sessions: nat -> string, now: nat)
    ensures InitiateAll(s, nodes, sessions, now).stopped == s.stopped
  {
    if |nodes| > 0 {
      InitiateAllSame(s, nodes[..|nodes| - 1], sessions, now);
    }
  }

  /** A step leaves a stopped mesh without links if and only if it answers no offer. */
  lemma SilentUnlessRevived(s: State, op: Op, sessions: nat -> string)
    requires Silent(s)
    ensures Silent(Step(s, op, sessions)) <==> !Revives(s, op)
  {
    if !s.stopped {
      StaysRunning(s, op, sessions);
      hide Step;
    } else {
      hide InitiateAll, SlotTargets, Received;
    }
  }

  lemma StaysRunning(s: State, op: Op, sessions: nat -> string)
    requires !s.stopped
    ensures op.ShutDown? || !Step(s, op, sessions).stopped
    ensures op.ShutDown? ==> Step(s, op, sessions).links == map[]
  {
    if op.FreeSlot? {
      NoTargetsWhenStopped(s, sessions, op.now);
    }
    if op.SetPriority? {
      var order := Discovery.NodesOf(Discovery.RankCandidates(op.candidates, Seconds(op.now)));
      NoTargetsWhenStopped(s.(priority := order), sessions, op.now);
    }
    hide FillSlots, Received;
  }

  /** So in a run no link exists while the mesh is stopped if and only if no offer is
      answered then. */
  lemma AlwaysSilentIffNoneRevived(me: string, ops: seq<Op>, sessions: nat -> string)
    ensures (forall k :: 0 <= k <= |ops| ==> Silent(Run(me, ops[..k], sessions))) <==>
            (forall k :: 0 <= k < |ops| ==> !Revives(Run(me, ops[..k], sessions), ops[k]))
  {
    hide Silent, Revives, Step;
    NewIsKnown(me, sessions);
    assert ops[..0] == [];
    forall k | 0 <= k < |ops| && Silent(Run(me, ops[..k], sessions))
      ensures Silent(Run(me, ops[..k + 1], sessions)) <==> !Revives(Run(me, ops[..k], sessions), ops[k])
    {
      SilentUnlessRevived(Run(me, ops[..k], sessions), ops[k], sessions);
      RunStep(me, ops, k, sessions);
    }
    if forall k :: 0 <= k <= |ops| ==> Silent(Run(me, ops[..k], sessions)) {
      forall k | 0 <= k < |ops| ensures !Revives(Run(me, ops[..k], sessions), ops[k]) {
        assert Silent(Run(me, ops[..k], sessions)) && Silent(Run(me, ops[..k + 1], sessions));
      }
    }
    if forall k :: 0 <= k < |ops| ==> !Revives(Run(me, ops[..k], sessions), ops[k]) {
      var k := 0;
      while k < |ops|
        invariant 0 <= k <= |ops| && forall j :: 0 <= j <= k ==> Silent(Run(me, ops[..j], sessions))
      {
        k := k + 1;
      }
    }
  }

  // -------------------------------------------------------------- both happen

  lemma RunLast(me: string, ops: seq<Op>, op: Op, sessions: nat -> string)
    ensures Run(me, ops + [op], sessions) == Step(Run(me, ops, sessions), op, sessions)
  {
    assert (ops + [op])[..|ops|] == ops;
  }

  /** An offer arrives from a peer; before it is decrypted, `event` happens. */
  function Race(sig: Signal, event: Op): seq<Op> {
    [Join("a", sig.pubkey, 0.0, 0), Arrive("b", sig)] + [event] + [Decrypted(sig)]
  }

  lemma RaceRun(sessions: nat -> string, sig: Signal, event: Op)
    requires sig.payload == Offer && sig.from == "a"
    ensures var s := Init("b").(peers := map["a" := Peer(sig.pubkey, 0.0)], decrypting := multiset{sig});
            Run("b", Race(sig, event), sessions) == Step(Step(s, event, sessions), Decrypted(sig), sessions)
  {
    var join, arrive := Join("a", sig.pubkey, 0.0, 0), Arrive("b", sig);
    assert !StrLess("b", "a");
    var s1 := Step(Init("b"), join, sessions);
    assert s1 == Init("b").(peers := map["a" := Peer(sig.pubkey, 0.0)]);
    assert Step(s1, arrive, sessions) == s1.(decrypting := multiset{sig});
    hide Step;
    RunLast("b", [], join, sessions);
    RunLast("b", [join], arrive, sessions);
    RunLast("b", [join, arrive], event, sessions);
    RunLast("b", [join, arrive] + [event], Decrypted(sig), sessions);
    assert [] + [join] == [join] && [join] + [arrive] == [join, arrive];
  }

  /** A link may outlive its peer: the sender is looked up before its signal is
      decrypted, and may be gone when the offer is answered. */
  lemma LinkOutlivesPeer(sessions: nat -> string, sig: Signal)
    requires sig.payload == Offer && sig.from == "a"
    ensures var s := Run("b", Race(sig, Removal("a")), sessions);
            "a" in s.links && "a" !in s.peers
  {
    RaceRun(sessions, sig, Removal("a"));
    hide Run, Race;
    var s := Init("b").(peers := map["a" := Peer(sig.pubkey, 0.0)], decrypting := multiset{sig});
    assert Step(s, Removal("a"), sessions) == Init("b").(decrypting := multiset{sig});
    Answered(Step(s, Removal("a"), sessions), sig, sessions);
  }

  /** And a mesh may open a link after it was shut down. */
  lemma LinkAfterShutdown(sessions: nat -> string, sig: Signal)
    requires sig.payload == Offer && sig.from == "a"
    ensures var s := Run("b", Race(sig, ShutDown), sessions);
            s.stopped && "a" in s.links
  {
    RaceRun(sessions, sig, ShutDown);
    hide Run, Race, Step;
    var s := Init("b").(peers := map["a" := Peer(sig.pubkey, 0.0)], decrypting := multiset{sig});
    Stopped(s, sessions);
    Answered(Step(s, ShutDown, sessions), sig, sessions);
  }

  lemma Stopped(s: State, sessions: nat -> string)
    ensures var t := Step(s, ShutDown, sessions);
            t.stopped && t.links == map[] && t.decrypting == s.decrypting
  {
    hide Serials;
  }

  lemma Answered(s: State, sig: Signal, sessions: nat -> string)
    requires sig in s.decrypting && sig.payload == Offer && s.links == map[]
    ensures var t := Step(s, Decrypted(sig), sessions);
            sig.from in t.links && t.peers == s.peers && t.stopped == s.stopped
  {
  }
}
