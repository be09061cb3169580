/** The mesh as the object it is: its methods change the link table in place, each
    one exactly as the state machine of `MeshTable` says. */
module MeshObject {
  import opened Basics
  import opened Ordering
  import opened MeshTable
  import MeshInvariant
  import MeshEffects
  import Discovery

  class Mesh {
    const me: string
    const sessions: nat -> string
    var stopped: bool
    var peers: map<string, Peer>
    var links: map<string, Link>
    var attempts: map<string, Attempt>
    var priority: seq<string>
    var decrypting: multiset<Signal>
    var created: nat
    ghost var closed: set<nat>

    ghost function View(): State
      reads this
    {
      State(me, stopped, peers, links, attempts, priority, decrypting, created, closed)
    }

    /** At most 16 links, at most 8 of them ours and those to larger ids, no connection
        lost from sight. */
    ghost predicate Valid()
      reads this
    {
      MeshInvariant.Inv(View())
    }

    constructor (me: string, sessions: nat -> string)
      ensures Valid() && View() == Init(me) && this.sessions == sessions
    {
      this.me, this.sessions := me, sessions;
      stopped, peers, links, attempts, priority, decrypting := false, map[], map[], map[], [], multiset{};
      created, closed := 0, {};
      new;
      MeshInvariant.RunKeepsInv(me, [], sessions);
    }

    method CreateLink(node: string, session: string, initiator: bool, pubkey: string, startedAt: real, rxSeen: set<int>)
      modifies this
      ensures View() == NewLink(old(View()), node, session, initiator, pubkey, startedAt, rxSeen)
    {
      var link := Link(created, session, initiator, false, pubkey, rxSeen, 0, false, startedAt);
      created := created + 1;
      links := links[node := link];
    }

    method Close(node: string)
      modifies this
      ensures View() == DropById(old(View()), node)
    {
      if node in links {
        closed := closed + {links[node].serial};
        links := links - {node};
      }
    }

    method CloseIfCurrent(node: string, serial: nat)
      modifies this
      ensures !old(Current(View(), node, serial)) ==> View() == old(View())
      ensures old(Current(View(), node, serial)) ==>
                View() == old(View()).(links := old(links) - {node}, closed := old(closed) + {serial})
      ensures old(Valid()) ==> Valid()
      ensures old(Valid() && Current(View(), node, serial)) ==>
                forall k :: MeshInvariant.Held(links, k) <==> old(MeshInvariant.Held(links, k)) && k != serial
    {
      ghost var before := View();
      hide MeshInvariant.Inv, MeshInvariant.Held;
      if MeshInvariant.Inv(before) && Current(before, node, serial) {
        MeshInvariant.DropKeeps(before, node);
        forall k ensures MeshInvariant.Held(DropById(before, node).links, k)
            <==> MeshInvariant.Held(before.links, k) && k != serial {
          MeshInvariant.OnlyOneIsDropped(before, node, k);
        }
      }
      if node !in links || links[node].serial != serial {
        return;
      }
      Close(node);
    }

    method Connect(node: string, now: nat)
      modifies this
      ensures View() == Initiate(old(View()), node, sessions, now)
    {
      if node !in peers {
        return;
      }
      CreateLink(node, sessions(created), true, peers[node].pubkey, Seconds(now) as real, {});
    }

    method Fill(now: nat)
      requires Valid()
      modifies this
      ensures Valid()
      ensures View() == FillSlots(old(View()), sessions, now)
    {
      hide MeshInvariant.Inv;
      MeshInvariant.StepKeeps(View(), FreeSlot(now), sessions);
      if stopped {
        return;
      }
      ghost var before := View();
      var targets := FindTargets(now);
      for i := 0 to |targets|
        invariant View() == InitiateAll(before, targets[..i], sessions, now)
      {
        assert targets[..i + 1][..i] == targets[..i];
        Connect(targets[i], now);
      }
      assert targets[..|targets|] == targets;
    }

    method FindTargets(now: nat) returns (targets: seq<string>)
      ensures targets == SlotTargets(View(), now)
    {
      var waiting, known := attempts, peers;
      var self := me;
      var skip := (id: string) =>
        !StrLess(self, id) || id !in known || (id in waiting && now as real < waiting[id].nextAt);
      targets := Discovery.SelectConnectTargets(priority, links.Keys, MAX_ACTIVE_LINKS, skip);
      SameSkip(View(), now, skip);
    }

    method Prioritize(candidates: seq<Discovery.Candidate>, now: nat)
      requires Valid() && Distinct(candidates) && Discovery.DistinctNodes(candidates)
      modifies this
      ensures Valid()
      ensures View() == Step(old(View()), SetPriority(candidates, now), sessions)
    {
      hide MeshInvariant.Inv;
      Discovery.RankingHasNoRepeats(candidates, Seconds(now));
      hide FillSlots, Distinct;
      var ranked := Discovery.NodesOf(Discovery.RankCandidates(candidates, Seconds(now)));
      MeshInvariant.PriorityIsFree(View(), ranked);
      priority := ranked;
      Fill(now);
    }

    method ConnectIfRoom(node: string, now: nat)
      requires Valid()
      modifies this
      ensures Valid()
      ensures View() == MaybeConnect(old(View()), node, sessions, now)
    {
      hide MeshInvariant.Inv;
      MeshInvariant.MaybeConnectKeeps(View(), node, sessions, now);
      if stopped || node in links {
        return;
      }
      if !StrLess(me, node) {
        return;
      }
      if node in attempts && now as real < attempts[node].nextAt {
        return;
      }
      if |links| >= MAX_ACTIVE_LINKS {
        return;
      }
      Connect(node, now);
    }

    method Joined(node: string, pubkey: string, createdAt: real, now: nat)
      requires Valid()
      modifies this
      ensures Valid()
      ensures View() == Step(old(View()), Join(node, pubkey, createdAt, now), sessions)
    {
      hide MeshInvariant.Inv;
      if stopped || node == me {
        return;
      }
      var seen := if node in peers then peers[node].lastSeen else 0.0;
      var peer := Peer(pubkey, Later(createdAt, seen));
      MeshInvariant.PeersAreFree(View(), peers[node := peer]);
      peers := peers[node := peer];
      ConnectIfRoom(node, now);
    }

    method Beat(node: string, createdAt: real, now: nat)
      requires Valid()
      modifies this
      ensures Valid()
      ensures View() == Step(old(View()), Heartbeat(node, createdAt, now), sessions)
    {
      hide MeshInvariant.Inv;
      if stopped || node == me || node !in peers {
        return;
      }
      var peer := peers[node].(lastSeen := Later(peers[node].lastSeen, createdAt));
      MeshInvariant.PeersAreFree(View(), peers[node := peer]);
      peers := peers[node := peer];
      ConnectIfRoom(node, now);
    }

    method Left(node: string, createdAt: real, ready: bool)
      requires Valid()
      modifies this
      ensures Valid()
      ensures View() == Step(old(View()), Leave(node, createdAt, ready), sessions)
    {
      hide MeshInvariant.Inv;
      MeshInvariant.StepKeeps(View(), Leave(node, createdAt, ready), sessions);
      if stopped || node == me {
        return;
      }
      if node in peers && createdAt < peers[node].lastSeen {
        return;
      }
      if node in links && links[node].open && ready {
        return;
      }
      Forget(node);
    }

    method Forget(node: string)
      requires Valid()
      modifies this
      ensures Valid()
      ensures View() == RemovePeer(old(View()), node)
    {
      hide MeshInvariant.Inv;
      MeshInvariant.StepKeeps(View(), Removal(node), sessions);
      Close(node);
      peers := peers - {node};
      attempts := attempts - {node};
    }

    method HandleOffer(sig: Signal) returns (outcome: OfferOutcome)
      modifies this
      ensures (View(), outcome) == OnOffer(old(View()), sig)
      ensures old(Valid()) ==>
                if old(MeshEffects.Answerable(View(), sig)) then MeshEffects.Answers(old(View()), View(), sig)
                else View() == old(View())
    {
      if MeshInvariant.Inv(View()) {
        MeshEffects.OfferEffect(View(), sig);
      }
      hide MeshInvariant.Inv, MeshEffects.Answerable, MeshEffects.Answers;
      var yielded := false;
      if sig.from in links {
        var existing := links[sig.from];
        if existing.session == sig.session {
          return DuplicateOffer;
        }
        if sig.createdAt <= existing.startedAt {
          return StaleOffer;
        }
        if existing.open {
          CloseIfCurrent(sig.from, existing.serial);
        } else if existing.initiator {
          if StrLess(me, sig.from) {
            return GlareWon;
          }
          yielded := true;
          CloseIfCurrent(sig.from, existing.serial);
        } else {
          CloseIfCurrent(sig.from, existing.serial);
        }
      }
      if |links| >= MAX_TOTAL_LINKS {
        return CapReached(yielded);
      }
      CreateLink(sig.from, sig.session, false, sig.pubkey, sig.createdAt, {sig.seqNo});
      outcome := Answering(yielded);
    }

    method HandleReply(sig: Signal)
      modifies this
      ensures View() == OnReply(old(View()), sig)
    {
      if sig.from !in links || links[sig.from].session != sig.session {
        return;
      }
      var link := links[sig.from];
      if sig.seqNo in link.rxSeen {
        return;
      }
      link := link.(rxSeen := link.rxSeen + {sig.seqNo});
      if sig.payload == Ice(false) && !link.haveRemote {
        if link.pending < MAX_PENDING_CANDIDATES {
          link := link.(pending := link.pending + 1);
        }
      }
      links := links[sig.from := link];
    }

    method Receive(target: string, sig: Signal)
      requires Valid()
      modifies this
      ensures Valid()
      ensures View() == Step(old(View()), Arrive(target, sig), sessions)
    {
      hide MeshInvariant.Inv;
      MeshInvariant.StepKeeps(View(), Arrive(target, sig), sessions);
      if stopped || sig.from == me || target != me {
        return;
      }
      if sig.from !in peers || peers[sig.from].pubkey != sig.pubkey {
        return;
      }
      decrypting := decrypting + multiset{sig};
    }

    method Process(sig: Signal)
      requires Valid()
      modifies this
      ensures Valid()
      ensures View() == Step(old(View()), Decrypted(sig), sessions)
    {
      hide MeshInvariant.Inv;
      MeshInvariant.StepKeeps(View(), Decrypted(sig), sessions);
      if sig !in decrypting {
        return;
      }
      decrypting := decrypting - multiset{sig};
      if sig.payload == Offer {
        var _ := HandleOffer(sig);
      } else {
        HandleReply(sig);
      }
    }

    method Fail(node: string, serial: nat, now: nat, random: real)
      requires Valid()
      modifies this
      ensures Valid()
      ensures View() == Step(old(View()), Failure(node, serial, now, random), sessions)
    {
      hide MeshInvariant.Inv;
      MeshInvariant.StepKeeps(View(), Failure(node, serial, now, random), sessions);
      if node !in links || links[node].serial != serial {
        return;
      }
      Close(node);
      var count := (if node in attempts then attempts[node].count else 0) + 1;
      attempts := attempts[node := BackOff(count, now, random)];
    }

    method ChannelOpened(node: string, serial: nat)
      requires Valid()
      modifies this
      ensures Valid()
      ensures View() == Step(old(View()), ChannelOpen(node, serial), sessions)
    {
      hide MeshInvariant.Inv;
      MeshInvariant.StepKeeps(View(), ChannelOpen(node, serial), sessions);
      if node !in links || links[node].serial != serial {
        return;
      }
      links := links[node := links[node].(open := true)];
      attempts := attempts - {node};
    }

    method PruneStale(now: int, ttl: int, ready: set<string>)
      requires Valid()
      modifies this
      ensures Valid()
      ensures View() == Prune(old(View()), now, ttl, ready)
    {
      hide MeshInvariant.Inv;
      ghost var before := View();
      var known := peers;
      var todo := known.Keys;
      NobodyGone(before);
      while todo != {}
        invariant todo <= known.Keys
        invariant Valid()
        invariant View() == Without(before, set n | n in known.Keys - todo && Stale(before, n, now, ttl, ready))
        decreases todo
      {
        var node :| node in todo;
        ghost var gone := set n | n in known.Keys - todo && Stale(before, n, now, ttl, ready);
        assert node !in gone;
        var open := node in links && links[node].open && node in ready;
        if !open && now as real - known[node].lastSeen > ttl as real {
          Forget(node);
          OneMoreGone(before, gone, node);
          assert (set n | n in known.Keys - (todo - {node}) && Stale(before, n, now, ttl, ready)) == gone + {node};
        } else {
          assert (set n | n in known.Keys - (todo - {node}) && Stale(before, n, now, ttl, ready)) == gone;
        }
        todo := todo - {node};
      }
      assert (set n | n in known.Keys - todo && Stale(before, n, now, ttl, ready))
          == (set n | n in before.peers && Stale(before, n, now, ttl, ready));
    }

    method Stop()
      requires Valid()
      modifies this
      ensures Valid()
      ensures View() == Shutdown(old(View()))
    {
      hide MeshInvariant.Inv, MeshInvariant.Held, Serials;
      MeshInvariant.ShutdownKeeps(View());
      stopped := true;
      ghost var before := View();
      NoSerials(links);
      var all := links;
      var todo := all.Keys;
      assert all.Keys - todo == {};
      while todo != {}
        invariant todo <= all.Keys
        invariant links == map n | n in todo :: all[n]
        invariant View() == before.(links := links, closed := before.closed + Serials(all, all.Keys - todo))
        decreases todo
      {
        var node :| node in todo;
        CloseIfCurrent(node, all[node].serial);
        SerialsMore(all, all.Keys - todo, node);
        assert all.Keys - (todo - {node}) == all.Keys - todo + {node};
        todo := todo - {node};
      }
      assert all.Keys - todo == all.Keys;
      assert View() == Shutdown(old(View()));
    }
  }

  lemma SameSkip(s: State, now: nat, skip: string -> bool)
    requires forall id :: skip(id) == Skip(s, now)(id)
    ensures Discovery.Targets(s.priority, s.links.Keys, MAX_ACTIVE_LINKS, skip) == SlotTargets(s, now)
  {
    FilterSame(s.priority, Discovery.Eligible(s.links.Keys, skip), Discovery.Eligible(s.links.Keys, Skip(s, now)));
  }

  lemma NobodyGone(s: State)
    ensures Without(s, {}) == s
  {
    NoSerials(s.links);
  }

  lemma NoSerials(links: map<string, Link>)
    ensures Serials(links, {}) == {}
  {
  }

  lemma SerialsMore(links: map<string, Link>, gone: set<string>, node: string)
    ensures Serials(links, gone + {node}) == Serials(links, gone) + if node in links then {links[node].serial} else {}
  {
  }

  lemma OneMoreGone(s: State, gone: set<string>, node: string)
    requires node !in gone
    ensures RemovePeer(Without(s, gone), node) == Without(s, gone + {node})
  {
    hide Serials;
    SerialsMore(s.links, gone, node);
    var a, b := RemovePeer(Without(s, gone), node), Without(s, gone + {node});
    assert a.peers == b.peers && a.links == b.links && a.attempts == b.attempts;
  }
}
