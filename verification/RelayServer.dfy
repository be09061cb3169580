/** The relay's event store as the object it is: each method computes exactly what
    `RelayStore` specifies, in place. */
module RelayServer {
  import opened Basics
  import opened Ordering
  import opened JsMaps
  import opened RelayStore
  import opened RelayInvariant
  import opened RelayEffects
  import RelayRuns
  import RelayMembers
  import SweepProgress

  class EventStore {
    var networks: JsMap<string, Bucket>
    var joins: map<string, Joins>
    var activity: map<string, int>
    ghost var history: seq<RelayRuns.Op>

    ghost function View(): Store
      reads `networks, `joins, `activity
    {
      Store(networks, joins, activity)
    }

    /** The store is what everything that was ingested and swept so far left of it. */
    ghost predicate Valid()
      reads this
    {
      StoreInv(View()) && View() == RelayRuns.StoreAfter(history)
    }

    constructor ()
      ensures Valid() && history == []
    {
      networks, joins, activity, history := EmptyMap(), map[], map[], [];
    }

    /** Whoever counts as a member has joined: the relay accepted a JOIN of that node
        less than 300 seconds ago, and that JOIN has not expired. */
    method IsLiveMember(network: string, node: string, now: nat) returns (r: bool)
      requires Valid()
      ensures r == HasLiveJoin(View(), network, node, now)
      ensures r ==> RelayRuns.HasJoined(history, network, node, now)
    {
      RelayRuns.MembersHaveJoined(history, network, node, now);
      hide StoreInv, RelayRuns.StoreAfter, RelayRuns.HasJoined;
      r := network in joins && node in joins[network].at && joins[network].at[node] > now;
    }

    /** Where there is room, an event goes exactly for another one of its network, node and
        kind, unless that kind admits many; and a JOIN makes its node a member. */
    method AddEvent(event: Event, now: int) returns (outcome: Outcome)
      requires StoreInv(View())
      modifies `networks, `joins, `activity
      ensures StoreInv(View()) && (View(), outcome) == Add(old(View()), event, now) && outcome != EventCap
      ensures RemovesExactly(old(View()), View(), event, outcome)
      ensures event.kind == JOIN ==> RelayMembers.MemberFor(View(), event, now)
    {
      AddKeepsInv(View(), event, now);
      AddRemovesAll(View(), event, now);
      RelayMembers.JoinMakesMemberFor(View(), event, now);
      hide *;
      outcome := Place(event, now);
    }

    /** `valid` is the outcome of verifying the event. */
    method Ingest(event: Event, valid: bool, now: nat) returns (accepted: bool)
      requires Valid()
      modifies this
      ensures Valid() && history == old(history) + [RelayRuns.Ingest(event, valid, now)]
      ensures (View(), accepted) == RelayRuns.Ingested(old(View()), event, valid, now)
      ensures accepted <==> old(RelayRuns.IsAccepted(View(), event, valid, now))
      ensures accepted && event.kind != JOIN ==> RelayRuns.HasJoined(old(history), event.network, event.node, now)
    {
      RelayRuns.IngestDecides(View(), event, valid, now);
      hide StoreInv, Add, RelayRuns.HasJoined, RelayRuns.StoreAfter, RelayRuns.Ingested, RelayRuns.IsAccepted;
      RelayRuns.AfterOneMore(history, RelayRuns.Ingest(event, valid, now));
      accepted := Admit(event, valid, now);
      history := history + [RelayRuns.Ingest(event, valid, now)];
    }

    method Admit(event: Event, valid: bool, now: nat) returns (accepted: bool)
      requires Valid()
      modifies `networks, `joins, `activity
      ensures StoreInv(View()) && (View(), accepted) == RelayRuns.Ingested(old(View()), event, valid, now)
      ensures accepted && event.kind != JOIN ==> RelayRuns.HasJoined(history, event.network, event.node, now)
    {
      hide StoreInv, Add, RelayRuns.HasJoined, RelayRuns.StoreAfter;
      if !valid {
        return false;
      }
      if event.kind != JOIN {
        var member := IsLiveMember(event.network, event.node, now);
        if !member {
          return false;
        }
      }
      var outcome := AddEvent(event, now);
      accepted := outcome == Stored || outcome == Duplicate;
    }

    method Place(event: Event, now: int) returns (outcome: Outcome)
      modifies `networks, `joins, `activity
      ensures (View(), outcome) == Add(old(View()), event, now)
    {
      hide Opened, Joined, Superseded, Evicted, MultiCount, DiscoveryCount, HasId;
      OpenNetwork(event.network, now);
      if event.kind == JOIN {
        RecordJoin(event, now);
      }
      assert View() == WithJoin(Opened(old(View()), event.network, now), event, now);
      var bucket := networks.at[event.network];
      if HasId(bucket, event.id) {
        assert Put(networks, event.network, bucket) == networks;
        return Duplicate;
      }
      var kept, multiCount, discoveryCount := Supersede(bucket, event);
      ghost var before := networks;
      networks := Put(networks, event.network, kept);
      assert forall b: Bucket :: Put(networks, event.network, b) == Put(before, event.network, b);
      if Multi(event.kind) && multiCount >= MAX_SIGNALS_PER_NODE {
        return SignalCap;
      }
      if !Multi(event.kind) && discoveryCount >= MAX_EVENTS_PER_NODE {
        return EventCap;
      }
      if |kept| >= MAX_EVENTS_PER_NETWORK {
        kept := EvictOldest(kept);
      }
      networks := Put(networks, event.network, kept + [event]);
      outcome := Stored;
    }

    method OpenNetwork(network: string, now: int)
      modifies `networks, `joins, `activity
      ensures View() == Opened(old(View()), network, now)
    {
      if network !in networks.at {
        if |networks.order| >= MAX_NETWORKS {
          EvictColdestNetwork();
        }
        networks := Put(networks, network, []);
      }
      activity := activity[network := now];
    }

    method EvictColdestNetwork()
      modifies `networks, `joins, `activity
      ensures View() == WithoutColdest(old(View()))
    {
      var coldest: Option<string> := None;
      for i := 0 to |networks.order|
        modifies {}
        invariant coldest == Coldest(activity, networks.order[..i])
      {
        assert networks.order[..i + 1][..i] == networks.order[..i];
        var net := networks.order[i];
        if coldest.None? || Get(activity, net) < Get(activity, coldest.value) {
          coldest := Some(net);
        }
      }
      assert networks.order[..|networks.order|] == networks.order;
      if coldest.Some? {
        networks := Delete(networks, coldest.value);
        joins := joins - {coldest.value};
        activity := activity - {coldest.value};
      }
    }

    method RecordJoin(event: Event, now: int)
      requires event.kind == JOIN
      modifies `joins
      ensures View() == WithJoin(old(View()), event, now)
      ensures old(MapOk(JoinsOf(joins, event.network))) ==>
                && event.network in joins && event.node in joins[event.network].at
                && joins[event.network].at[event.node] == old(RowAfter(JoinsOf(joins, event.network), event, now))
    {
      if MapOk(JoinsOf(joins, event.network)) {
        JoinedRows(JoinsOf(joins, event.network), event, now, event.node);
      }
      hide MapOk, RowAfter;
      var rows := if event.network in joins then joins[event.network] else EmptyMap();
      var expiry := Min(event.expiresAt, now + JOIN_TTL);
      rows := Put(rows, event.node, Max(Get(rows.at, event.node), expiry));
      if |rows.order| > MAX_JOINS_PER_NETWORK {
        var soonest: Option<string> := None;
        for i := 0 to |rows.order|
          modifies {}
          invariant soonest == Soonest(rows.at, rows.order[..i])
        {
          assert rows.order[..i + 1][..i] == rows.order[..i];
          var node := rows.order[i];
          if soonest.None? || Get(rows.at, node) < Get(rows.at, soonest.value) {
            soonest := Some(node);
          }
        }
        assert rows.order[..|rows.order|] == rows.order;
        if soonest.Some? && soonest.value != event.node {
          rows := Delete(rows, soonest.value);
        }
      }
      joins := joins[event.network := rows];
    }

    static method Supersede(bucket: Bucket, event: Event) returns (kept: Bucket, multiCount: nat, discoveryCount: nat)
      ensures kept == Superseded(bucket, event)
      ensures kept == Remaining(bucket, event)
      ensures multiCount == MultiCount(bucket, event.node) == PointToPoint(bucket, event.node)
      ensures discoveryCount == DiscoveryCount(kept, event.node)
      ensures Multi(event.kind) ==> kept == bucket
    {
      RemainingIsSuperseded(bucket, event);
      PointToPointIsMulti(bucket, event.node);
      hide Remaining, PointToPoint;
      kept, multiCount, discoveryCount := [], 0, 0;
      for i := 0 to |bucket|
        invariant kept == Superseded(bucket[..i], event)
        invariant multiCount == MultiCount(bucket[..i], event.node)
        invariant discoveryCount == DiscoveryCount(kept, event.node)
      {
        var existing := bucket[i];
        assert bucket[..i + 1] == bucket[..i] + [existing];
        FilterAppend(bucket[..i], existing, (x: Event) => !Supersedes(event, x));
        FilterAppend(bucket[..i], existing, SignalsOf(event.node));
        FilterAppend(kept, existing, DiscoveryOf(event.node));
        if existing.node == event.node {
          if Multi(existing.kind) {
            multiCount := multiCount + 1;
          } else {
            discoveryCount := discoveryCount + 1;
          }
        }
        if existing.node == event.node && !Multi(event.kind) && existing.kind == event.kind {
          discoveryCount := discoveryCount - 1;
        } else {
          kept := kept + [existing];
        }
      }
      assert bucket[..|bucket|] == bucket;
      if Multi(event.kind) {
        FilterAll(bucket, (x: Event) => !Supersedes(event, x));
      }
    }

    static method EvictOldest(bucket: Bucket) returns (r: Bucket)
      ensures r == Evicted(bucket)
    {
      var counts := CountNodes(bucket);
      var heaviest: Option<string> := None;
      var max := 0;
      for i := 0 to |counts.order|
        invariant heaviest == Heaviest(bucket, counts.order[..i])
        invariant max == if heaviest.Some? then Count(bucket, heaviest.value) else 0
      {
        var node := counts.order[i];
        assert counts.order[..i + 1][..i] == counts.order[..i];
        if counts.at[node] > max {
          max := counts.at[node];
          heaviest := Some(node);
        }
      }
      assert counts.order[..|counts.order|] == counts.order;
      if heaviest.None? {
        return bucket;
      }
      var victim: Option<nat> := None;
      for i := 0 to |bucket|
        invariant victim == OldestOf(bucket, heaviest.value, i)
      {
        if bucket[i].node != heaviest.value {
          continue;
        }
        if victim.None? || bucket[i].createdAt < bucket[victim.value].createdAt {
          victim := Some(i);
        }
      }
      r := if victim.None? then bucket else RemoveAt(bucket, victim.value);
    }

    static method CountNodes(bucket: Bucket) returns (counts: JsMap<string, nat>)
      ensures counts.order == FirstSeen(bucket)
      ensures forall n :: n in counts.order ==> n in counts.at && counts.at[n] == Count(bucket, n)
    {
      counts := EmptyMap();
      for i := 0 to |bucket|
        invariant counts.order == FirstSeen(bucket[..i])
        invariant forall n :: n in counts.order <==> n in counts.at
        invariant forall n :: n in counts.at ==> counts.at[n] == Count(bucket[..i], n)
        invariant forall n :: n !in counts.at ==> Count(bucket[..i], n) == 0
      {
        var event := bucket[i];
        assert bucket[..i + 1] == bucket[..i] + [event];
        assert bucket[..i + 1][..i] == bucket[..i];
        forall n ensures Count(bucket[..i + 1], n) == Count(bucket[..i], n) + if event.node == n then 1 else 0 {
          FilterAppend(bucket[..i], event, ByNode(n));
        }
        counts := Put(counts, event.node, (if event.node in counts.at then counts.at[event.node] else 0) + 1);
      }
      assert bucket[..|bucket|] == bucket;
    }

    method QueryEvents(filter: EventFilter, now: int) returns (found: seq<Event>)
      ensures found == Query(View(), filter, now)
    {
      if filter.network !in networks.at {
        return [];
      }
      var bucket := networks.at[filter.network];
      var hits: seq<Event> := [];
      for i := 0 to |bucket|
        invariant hits == Filter(bucket[..i], (e: Event) => Matches(e, filter, now))
      {
        assert bucket[..i + 1] == bucket[..i] + [bucket[i]];
        FilterAppend(bucket[..i], bucket[i], (e: Event) => Matches(e, filter, now));
        if Matches(bucket[i], filter, now) {
          hits := hits + [bucket[i]];
        }
      }
      assert bucket[..|bucket|] == bucket;
      found := Sort(hits, CreatedBefore);
    }

    method SweepExpired(now: nat)
      requires Valid()
      modifies this
      ensures Valid() && View() == Swept(old(View()), now)
      ensures history == old(history) + [RelayRuns.Sweep(now)]
    {
      SweepKeepsInv(View(), now);
      RelayRuns.AfterOneMore(history, RelayRuns.Sweep(now));
      hide BucketInv, RelayRuns.StoreAfter;
      SweepNetworks(now);
      SweepJoins(now);
      history := history + [RelayRuns.Sweep(now)];
    }

    method SweepBucket(bucket: Bucket, now: int) returns (live: Bucket)
      ensures live == LiveEvents(bucket, now)
    {
      live := [];
      for i := 0 to |bucket|
        invariant live == LiveEvents(bucket[..i], now)
      {
        assert bucket[..i + 1] == bucket[..i] + [bucket[i]];
        FilterAppend(bucket[..i], bucket[i], LiveAt(now));
        if bucket[i].expiresAt > now {
          live := live + [bucket[i]];
        }
      }
      assert bucket[..|bucket|] == bucket;
    }

    method SweepNetworks(now: int)
      requires MapOk(networks) && activity.Keys == networks.at.Keys
      modifies `networks, `activity
      ensures networks == LiveNetworks(old(networks), now)
      ensures activity == Swept(old(View()), now).activity
    {
      hide LiveEvents, LiveNetworks, Swept, MapOk, Delete, Put, SweepProgress.Partly;
      var nets := networks.order;
      ghost var before := View();
      SweepProgress.Begin(before, now);
      for i := 0 to |nets|
        invariant View() == SweepProgress.Partly(before, nets[..i], now)
      {
        var net := nets[i];
        SweepProgress.NotYet(before, nets, i, now);
        var live := SweepBucket(networks.at[net], now);
        if |live| == 0 {
          SweepProgress.AdvanceDead(before, nets[..i], net, nets[..i + 1], now);
          networks := Delete(networks, net);
          activity := activity - {net};
        } else {
          SweepProgress.AdvanceLive(before, nets[..i], net, nets[..i + 1], now);
          networks := Put(networks, net, live);
        }
      }
      assert nets[..|nets|] == nets;
      SweepProgress.Finish(before, now);
    }

    method SweepRows(rows: Joins, now: int) returns (live: Joins)
      requires MapOk(rows)
      ensures live == LiveJoins(rows, now)
    {
      live := rows;
      SoFarBegin(rows, LiveRow(rows, now));
      for i := 0 to |rows.order|
        invariant live == Retain(rows, SoFar(rows.order[..i], LiveRow(rows, now)))
      {
        var node := rows.order[i];
        SoFarAdvance(rows, i, LiveRow(rows, now));
        if rows.at[node] <= now {
          live := Delete(live, node);
        }
      }
      assert rows.order[..|rows.order|] == rows.order;
      SoFarEnd(rows, LiveRow(rows, now));
    }

    method SweepJoins(now: int)
      requires JoinsInv(joins)
      modifies `joins
      ensures joins == Swept(old(View()), now).joins
    {
      hide LiveJoins, MapOk;
      ghost var before := joins;
      var todo := joins.Keys;
      while todo != {}
        invariant todo <= before.Keys
        invariant joins == SweepProgress.PartlyJoins(before, before.Keys - todo, now)
        decreases todo
      {
        var net :| net in todo;
        assert before.Keys - (todo - {net}) == before.Keys - todo + {net};
        var live := SweepRows(joins[net], now);
        if |live.order| == 0 {
          joins := joins - {net};
        } else {
          joins := joins[net := live];
        }
        todo := todo - {net};
      }
    }
  }
}
