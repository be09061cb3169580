/** What the relay's operations do to the store, told by the fields of the events. */
module RelayEffects {
  import opened Basics
  import opened Ordering
  import opened JsMaps
  import opened RelayStore
  import opened RelayInvariant

  /** Of these kinds a node's newer event replaces its older one. */
  predicate OneOfAKind(k: Kind) {
    k == JOIN || k == HEARTBEAT || k == LEAVE || k == MANIFEST
  }

  predicate ManyOfAKind(k: Kind) {
    k == SIGNAL || k == INVITE
  }

  /** What a new event leaves of a bucket. */
  function Remaining(b: Bucket, e: Event): Bucket {
    Filter(b, (x: Event) => !(x.node == e.node && x.kind == e.kind && OneOfAKind(e.kind)))
  }

  function PointToPoint(b: Bucket, node: string): nat {
    |Filter(b, (x: Event) => x.node == node && ManyOfAKind(x.kind))|
  }

  function OwnEvents(b: Bucket, node: string): Bucket {
    Filter(b, (x: Event) => x.node == node)
  }

  function EventsBy(b: Bucket, node: string): nat {
    |OwnEvents(b, node)|
  }

  /** Event `k` is the first of the oldest of a node with the most events. */
  ghost predicate FairVictim(b: Bucket, k: nat) {
    && k < |b| && (forall n :: EventsBy(b, n) <= EventsBy(b, b[k].node))
    && forall j :: 0 <= j < |b| && b[j].node == b[k].node ==>
                     b[k].createdAt < b[j].createdAt || (b[k].createdAt == b[j].createdAt && k <= j)
  }

  ghost predicate BucketOk(b: Bucket, network: string) {
    |b| > 0 ==> BucketInv(network, b)
  }

  lemma RemainingIsSuperseded(b: Bucket, e: Event)
    ensures Remaining(b, e) == Superseded(b, e)
  {
    FilterSame(b, (x: Event) => !(x.node == e.node && x.kind == e.kind && OneOfAKind(e.kind)),
               (x: Event) => !Supersedes(e, x));
  }

  lemma PointToPointIsMulti(b: Bucket, node: string)
    ensures PointToPoint(b, node) == MultiCount(b, node)
  {
    FilterSame(b, (x: Event) => x.node == node && ManyOfAKind(x.kind), SignalsOf(node));
  }

  lemma EventsByIsCount(b: Bucket, node: string)
    ensures OwnEvents(b, node) == OfNode(b, node) && EventsBy(b, node) == Count(b, node)
  {
    FilterSame(b, (x: Event) => x.node == node, ByNode(node));
  }

  /** An event is refused exactly as a duplicate, by its id, or as one SIGNAL or INVITE
      too many; it is never refused otherwise. */
  lemma AdmissionOutcome(b: Bucket, e: Event)
    requires BucketOk(b, e.network)
    ensures var r, known := Admitted(b, e).1, exists x :: x in b && x.id == e.id;
            && (r == Duplicate <==> known)
            && (r == SignalCap <==> !known && ManyOfAKind(e.kind) && PointToPoint(b, e.node) >= 256)
            && r != EventCap && (r != Stored ==> Admitted(b, e).0 == b)
  {
    AdmittedInv(b, e);
    PointToPointIsMulti(b, e.node);
    assert (exists x :: x in b && x.id == e.id) <==> HasId(b, e.id) by {
      if HasId(b, e.id) {
        var k :| 0 <= k < |b| && b[k].id == e.id;
        assert b[k] in b;
      }
    }
    hide HasId, MultiCount, PointToPoint, BucketInv, Evicted, DiscoveryCount, Superseded;
  }

  /** What is stored goes last, after what it replaces has gone, and at 5000 events one
      more, fairly chosen. */
  lemma AdmissionContents(b: Bucket, e: Event)
    requires BucketOk(b, e.network) && Admitted(b, e).1 == Stored
    ensures var rest := Remaining(b, e);
            if |rest| < 5000 then Admitted(b, e).0 == rest + [e]
            else exists k: nat :: FairVictim(rest, k) && Admitted(b, e).0 == rest[..k] + rest[k + 1..] + [e]
  {
    RemainingIsSuperseded(b, e);
    var rest := Remaining(b, e);
    if |rest| >= 5000 {
      var k := EvictionIsFair(rest);
      forall n ensures EventsBy(rest, n) == Count(rest, n) {
        EventsByIsCount(rest, n);
      }
      hide Count, EventsBy, Evicted, Superseded, Remaining, HasId, MultiCount, DiscoveryCount;
      assert FairVictim(rest, k);
    }
  }

  // --------------------------------------------------------------- the store

  /** A new network arrives at a full relay. */
  predicate FullFor(s: Store, network: string) {
    network !in s.networks.at && |s.networks.order| >= 1000
  }

  /** A network idle the longest, and the first of these. */
  ghost predicate Idlest(s: Store, c: string) {
    exists i :: && 0 <= i < |s.networks.order| && s.networks.order[i] == c
                && forall j :: 0 <= j < |s.networks.order| ==>
                                 var n := s.networks.order[j];
                                 || Get(s.activity, c) < Get(s.activity, n)
                                 || (Get(s.activity, c) == Get(s.activity, n) && i <= j)
  }

  lemma {:induction false} ColdestIsIdlest(activity: map<string, int>, nets: seq<string>) returns (i: nat)
    requires |nets| > 0
    ensures i < |nets| && Coldest(activity, nets) == Some(nets[i])
    ensures forall j :: 0 <= j < |nets| ==>
              || Get(activity, nets[i]) < Get(activity, nets[j])
              || (Get(activity, nets[i]) == Get(activity, nets[j]) && i <= j)
  {
    var rest, last := nets[..|nets| - 1], |nets| - 1;
    if |rest| == 0 {
      i := 0;
    } else {
      i := ColdestIsIdlest(activity, rest);
      assert nets[i] == rest[i];
      if Get(activity, nets[last]) < Get(activity, nets[i]) {
        i := last;
      }
    }
  }

  /** Only one network makes room. */
  lemma IdlestIsColdest(s: Store, c: string)
    requires |s.networks.order| > 0
    ensures Idlest(s, c) <==> Coldest(s.activity, s.networks.order) == Some(c)
  {
    var i := ColdestIsIdlest(s.activity, s.networks.order);
    hide Coldest, Get;
  }

  predicate SameNetwork(s: Store, t: Store, n: string) {
    && (n in t.networks.at <==> n in s.networks.at) && BucketOf(t, n) == BucketOf(s, n)
    && (n in t.joins <==> n in s.joins) && JoinsOf(t.joins, n) == JoinsOf(s.joins, n)
    && (n in t.activity <==> n in s.activity) && Get(t.activity, n) == Get(s.activity, n)
  }

  predicate NetworkGone(t: Store, n: string) {
    n !in t.networks.at && n !in t.joins && n !in t.activity
  }

  lemma OpenedSpares(s: Store, network: string, now: int, n: string)
    requires StoreInv(s) && n != network
    ensures var t := Opened(s, network, now);
            if FullFor(s, network) && Idlest(s, n) then NetworkGone(t, n) else SameNetwork(s, t, n)
  {
    hide StoreInv;
    if FullFor(s, network) {
      IdlestIsColdest(s, n);
      hide Idlest;
      var i := ColdestIsIdlest(s.activity, s.networks.order);
      hide Coldest, Get;
      assert WithoutColdest(s).networks.at == s.networks.at - {s.networks.order[i]};
    }
  }

  /** An add leaves every other network as it was, but for the one that makes room for a
      new network at a full relay. */
  lemma AddSparesOthers(s: Store, e: Event, now: int, n: string)
    requires StoreInv(s) && n != e.network
    ensures var t := Add(s, e, now).0;
            if FullFor(s, e.network) && Idlest(s, n) then NetworkGone(t, n) else SameNetwork(s, t, n)
  {
    OpenedSpares(s, e.network, now, n);
    hide Admitted, Opened, Idlest, StoreInv, Joined, Get;
  }

  /** The event's network becomes the most recently active, and its bucket is the old one,
      or the new network's empty one, after admission. */
  lemma AddAdmits(s: Store, e: Event, now: int)
    requires StoreInv(s)
    ensures var t, r := Add(s, e, now).0, Admitted(BucketOf(s, e.network), e);
            && e.network in t.networks.at && BucketOf(t, e.network) == r.0 && Add(s, e, now).1 == r.1
            && e.network in t.activity && t.activity[e.network] == now
            && BucketOk(BucketOf(s, e.network), e.network)
  {
    hide Admitted, Coldest, Joined, BucketInv;
  }

  lemma {:induction false} InRemaining(b: Bucket, e: Event, x: Event)
    ensures x in Remaining(b, e) <==> x in b && !(x.node == e.node && x.kind == e.kind && OneOfAKind(e.kind))
  {
    FilterMembers(b, (y: Event) => !(y.node == e.node && y.kind == e.kind && OneOfAKind(e.kind)));
  }

  /** Adding the event takes nothing from this network for want of room. */
  ghost predicate RoomFor(s: Store, e: Event, network: string) {
    |BucketOf(s, e.network)| < 5000 && !(FullFor(s, e.network) && Idlest(s, network))
  }

  ghost predicate RemovesExactly(s: Store, t: Store, e: Event, outcome: Outcome) {
    forall x: Event :: RoomFor(s, e, x.network) && x in BucketOf(s, x.network) ==>
                         (x !in BucketOf(t, x.network) <==>
                          && outcome == Stored && x.network == e.network && x.node == e.node && x.kind == e.kind
                          && e.kind in {JOIN, HEARTBEAT, LEAVE, MANIFEST})
  }

  lemma AddRemovesAll(s: Store, e: Event, now: int)
    requires StoreInv(s)
    ensures RemovesExactly(s, Add(s, e, now).0, e, Add(s, e, now).1)
  {
    hide StoreInv, RoomFor, Add;
    forall x: Event | RoomFor(s, e, x.network) && x in BucketOf(s, x.network)
      ensures x !in BucketOf(Add(s, e, now).0, x.network) <==>
              && Add(s, e, now).1 == Stored && x.network == e.network && x.node == e.node && x.kind == e.kind
              && e.kind in {JOIN, HEARTBEAT, LEAVE, MANIFEST}
    {
      AddRemovesExactly(s, e, now, x);
    }
  }

  /** An add that has room removes an event if and only if it stores another of the same
      network, node and kind, and the kind is JOIN, HEARTBEAT, LEAVE or MANIFEST. */
  lemma AddRemovesExactly(s: Store, e: Event, now: int, x: Event)
    requires StoreInv(s) && x in BucketOf(s, x.network)
    requires RoomFor(s, e, x.network)
    ensures var t, outcome := Add(s, e, now).0, Add(s, e, now).1;
            x !in BucketOf(t, x.network) <==>
              && outcome == Stored && x.network == e.network && x.node == e.node && x.kind == e.kind
              && e.kind in {JOIN, HEARTBEAT, LEAVE, MANIFEST}
  {
    var b := BucketOf(s, e.network);
    if x.network != e.network {
      AddSparesOthers(s, e, now, x.network);
    } else {
      AddAdmits(s, e, now);
      AdmissionOutcome(b, e);
      InRemaining(b, e, x);
      FilterMembers(b, (y: Event) => !(y.node == e.node && y.kind == e.kind && OneOfAKind(e.kind)));
      assert |Remaining(b, e)| < 5000;
      if Admitted(b, e).1 == Stored {
        AdmissionContents(b, e);
        assert x in Admitted(b, e).0 <==> x in Remaining(b, e) || x == e;
        assert x != e by {
          assert x == e ==> exists y :: y in b && y.id == e.id;
        }
      }
    }
    hide Add, Admitted, StoreInv, Idlest, BucketOk, Remaining;
  }

  // --------------------------------------------------------- the join index

  function Greater(a: int, b: int): int {
    if a < b then b else a
  }

  /** The row of the joiner: what its JOIN is good for, at most 300 seconds, unless an
      earlier JOIN is good for longer. */
  function RowAfter(rows: Joins, e: Event, now: int): int {
    var granted := if e.expiresAt < now + 300 then e.expiresAt else now + 300;
    if e.node in rows.at then Greater(rows.at[e.node], granted) else Greater(0, granted)
  }

  /** With the joiner's row entered, the node has the earliest expiry of more than 2000,
      and is the first of these. */
  ghost predicate Trims(rows: Joins, e: Event, now: int, node: string) {
    var more := Put(rows, e.node, RowAfter(rows, e, now));
    && |more.order| > 2000 && node != e.node
    && exists i :: && 0 <= i < |more.order| && more.order[i] == node
                   && forall j :: 0 <= j < |more.order| ==>
                                    || Get(more.at, node) < Get(more.at, more.order[j])
                                    || (Get(more.at, node) == Get(more.at, more.order[j]) && i <= j)
  }

  lemma {:induction false} SoonestIsFirst(at: map<string, int>, nodes: seq<string>) returns (i: nat)
    requires |nodes| > 0
    ensures i < |nodes| && Soonest(at, nodes) == Some(nodes[i])
    ensures forall j :: 0 <= j < |nodes| ==>
              Get(at, nodes[i]) < Get(at, nodes[j]) || (Get(at, nodes[i]) == Get(at, nodes[j]) && i <= j)
  {
    var rest, last := nodes[..|nodes| - 1], |nodes| - 1;
    if |rest| == 0 {
      i := 0;
    } else {
      i := SoonestIsFirst(at, rest);
      assert nodes[i] == rest[i];
      if Get(at, nodes[last]) < Get(at, nodes[i]) {
        i := last;
      }
    }
  }

  lemma TrimmedRows(more: Joins, node: string, other: string)
    requires MapOk(more) && |more.order| > 0
    ensures var gone := |more.order| > 2000 && other != node && Soonest(more.at, more.order) == Some(other);
            var after := Trimmed(more, node);
            if gone then other !in after.at
            else (other in after.at <==> other in more.at) && (other in more.at ==> after.at[other] == more.at[other])
  {
    var i := SoonestIsFirst(more.at, more.order);
    hide Soonest, Get, MapOk;
  }

  lemma TrimsIsSoonest(rows: Joins, e: Event, now: int, node: string)
    requires MapOk(Put(rows, e.node, RowAfter(rows, e, now)))
    ensures var more := Put(rows, e.node, RowAfter(rows, e, now));
            Trims(rows, e, now, node) <==>
            |more.order| > 2000 && node != e.node && Soonest(more.at, more.order) == Some(node)
  {
    var more := Put(rows, e.node, RowAfter(rows, e, now));
    if |more.order| > 0 {
      var i := SoonestIsFirst(more.at, more.order);
      hide Soonest, Get, MapOk, RowAfter;
    }
  }

  /** A JOIN enters its node's row, and drops the row it trims, if any. */
  lemma JoinedRows(rows: Joins, e: Event, now: int, node: string)
    requires MapOk(rows)
    ensures var after := Joined(rows, e, now);
            if node == e.node then node in after.at && after.at[node] == RowAfter(rows, e, now)
            else if Trims(rows, e, now, node) then node !in after.at
            else (node in after.at <==> node in rows.at) && (node in rows.at ==> after.at[node] == rows.at[node])
  {
    var more := Put(rows, e.node, RowAfter(rows, e, now));
    assert Joined(rows, e, now) == Trimmed(more, e.node);
    PutOk(rows, e.node, RowAfter(rows, e, now));
    assert e.node in more.order && |more.order| > 0;
    hide MapOk, Soonest, Get, Joined, RowAfter, Trimmed, Trims;
    TrimmedRows(more, e.node, node);
    TrimsIsSoonest(rows, e, now, node);
  }

  /** The relay remembers a JOIN of the node that is good for longer than until `t`. */
  predicate IsMember(s: Store, network: string, node: string, t: int) {
    network in s.joins && node in s.joins[network].at && t < s.joins[network].at[node]
  }

  /** A JOIN changes no index but its network's, and no other event changes any. */
  lemma AddIndexes(s: Store, e: Event, now: int)
    requires StoreInv(s)
    ensures JoinsOf(Add(s, e, now).0.joins, e.network)
            == if e.kind == JOIN then Joined(JoinsOf(s.joins, e.network), e, now) else JoinsOf(s.joins, e.network)
  {
    ColdestInList(s.activity, s.networks.order);
    hide Admitted, Coldest, Joined, BucketInv;
  }

  // ------------------------------------------------------- query and sweep

  /** A query finds exactly the events of the network that have not expired, are of a
      wanted kind and node, not too old, and, for a SIGNAL, addressed to the asker. */
  predicate Wanted(e: Event, f: EventFilter, now: int) {
    && now < e.expiresAt && e.network == f.network
    && (f.kinds == None || e.kind in f.kinds.value)
    && (f.node == "" || f.node == e.node)
    && (f.since == 0 || f.since <= e.createdAt)
    && (e.kind == SIGNAL ==> f.target == e.target != "")
  }

  lemma WantedMatches(b: Bucket, f: EventFilter, now: int)
    ensures Filter(b, (e: Event) => Matches(e, f, now)) == Filter(b, (e: Event) => Wanted(e, f, now))
  {
    FilterSame(b, (e: Event) => Matches(e, f, now), (e: Event) => Wanted(e, f, now));
  }

  /** A sweep takes exactly the events, and the rows of the indexes, that have expired, the
      networks without events, with their activity, and the empty indexes. */
  lemma SweepTakesTheExpired(s: Store, now: int, n: string)
    requires StoreInv(s)
    ensures var t := Swept(s, now);
            && BucketOf(t, n) == Filter(BucketOf(s, n), (e: Event) => now < e.expiresAt)
            && (n in t.networks.at <==> |BucketOf(t, n)| > 0)
            && (n in t.activity <==> n in t.networks.at) && (n in t.activity ==> t.activity[n] == s.activity[n])
            && (n in t.joins ==> t.joins[n].at != map[])
  {
    FilterSame(BucketOf(s, n), (e: Event) => now < e.expiresAt, LiveAt(now));
    SweepKeepsInv(s, now);
    if n in Swept(s, now).joins {
      FilterMembers(s.joins[n].order, LiveRow(s.joins[n], now));
      var rows := LiveJoins(s.joins[n], now);
      assert rows.order[0] in rows.order;
      assert rows.order[0] in rows.at;
    }
    hide BucketInv, LiveEvents;
  }

  lemma SweepRowsExactly(s: Store, now: int, n: string, node: string)
    requires StoreInv(s)
    ensures var before, after := JoinsOf(s.joins, n), JoinsOf(Swept(s, now).joins, n);
            && (node in after.at <==> node in before.at && now < before.at[node])
            && (node in after.at ==> after.at[node] == before.at[node])
  {
    hide NetworksInv, LiveEvents;
    if n in s.joins {
      var rows := s.joins[n];
      FilterMembers(rows.order, LiveRow(rows, now));
      if node in rows.at && now < rows.at[node] {
        assert node in LiveJoins(rows, now).order;
      }
    }
  }
}
