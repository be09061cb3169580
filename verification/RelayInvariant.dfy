/** What every reachable relay store keeps, and whom its eviction can hit. */
module RelayInvariant {
  import opened Basics
  import opened Ordering
  import opened JsMaps
  import opened RelayStore

  /** Two events of one bucket have different ids, and share node and kind only
      when the kind admits many. */
  predicate Compatible(a: Event, b: Event) {
    a.id != b.id && (a.node == b.node && a.kind == b.kind ==> Multi(a.kind))
  }

  ghost predicate Capped(b: Bucket) {
    forall n :: MultiCount(b, n) <= MAX_SIGNALS_PER_NODE
  }

  ghost predicate BucketInv(network: string, b: Bucket) {
    && 0 < |b| <= MAX_EVENTS_PER_NETWORK
    && (forall e :: e in b ==> e.network == network)
    && Pairwise(b, Compatible) && Capped(b)
  }

  ghost predicate NetworksInv(networks: JsMap<string, Bucket>) {
    && MapOk(networks) && |networks.order| <= MAX_NETWORKS
    && forall n :: n in networks.at ==> BucketInv(n, networks.at[n])
  }

  ghost predicate JoinsInv(joins: map<string, Joins>) {
    forall n :: n in joins ==> MapOk(joins[n])
  }

  ghost predicate StoreInv(s: Store) {
    NetworksInv(s.networks) && JoinsInv(s.joins) && s.activity.Keys == s.networks.at.Keys
  }

  // ------------------------------------------------------ counting in buckets

  lemma {:induction false} FilterMonotone<T>(s: seq<T>, few: T -> bool, many: T -> bool)
    requires forall x :: x in s && few(x) ==> many(x)
    ensures |Filter(s, few)| <= |Filter(s, many)|
  {
    if |s| > 0 {
      assert forall x :: x in s[1..] ==> x in s;
      FilterMonotone(s[1..], few, many);
    }
  }

  lemma {:induction false} FilterComplement<T>(s: seq<T>, keep: T -> bool, drop: T -> bool)
    requires forall x :: x in s ==> drop(x) == !keep(x)
    ensures |Filter(s, keep)| + |Filter(s, drop)| == |s|
  {
    if |s| > 0 {
      assert forall x :: x in s[1..] ==> x in s;
      assert s[0] in s;
      FilterComplement(s[1..], keep, drop);
    }
  }

  /** Removing events raises no count. */
  lemma FilteredCounts(b: Bucket, keep: Event -> bool, p: Event -> bool)
    ensures |Filter(Filter(b, keep), p)| <= |Filter(b, p)|
  {
    FilterFilter(b, keep, p, e => keep(e) && p(e));
    FilterMonotone(b, e => keep(e) && p(e), p);
  }

  lemma RemovedCounts(b: Bucket, k: nat, p: Event -> bool)
    requires k < |b|
    ensures |Filter(RemoveAt(b, k), p)| == |Filter(b, p)| - if p(b[k]) then 1 else 0
  {
    assert b == b[..k] + [b[k]] + b[k + 1..];
    FilterConcat(b[..k], b[k + 1..], p);
    FilterConcat(b[..k] + [b[k]], b[k + 1..], p);
    FilterAppend(b[..k], b[k], p);
  }

  lemma {:induction false} DistinctFits<T>(s: seq<T>, all: set<T>)
    requires Distinct(s) && forall x :: x in s ==> x in all
    ensures |s| <= |all|
  {
    if |s| > 0 {
      var last := |s| - 1;
      assert s[last] !in s[..last];
      DistinctFits(s[..last], all - {s[last]});
    }
  }

  /** A node has at most one event of each of the four discovery kinds. */
  lemma FewDiscoveryEvents(b: Bucket, n: string)
    requires Pairwise(b, Compatible)
    ensures DiscoveryCount(b, n) <= 4
  {
    var p := DiscoveryOf(n);
    var own := Filter(b, p);
    FilterMembers(b, p);
    FilterPairwise(b, p, Compatible);
    var kinds := seq(|own|, i requires 0 <= i < |own| => own[i].kind);
    forall i, j | 0 <= i < j < |kinds| ensures kinds[i] != kinds[j] {
      assert Compatible(own[i], own[j]);
      assert own[i] in own && own[j] in own;
    }
    var all := {JOIN, HEARTBEAT, LEAVE, MANIFEST};
    forall k | k in kinds ensures k in all {
      var i :| 0 <= i < |kinds| && kinds[i] == k;
      assert own[i] in own;
    }
    DistinctFits(kinds, all);
  }

  lemma CountSplits(b: Bucket, n: string)
    ensures Count(b, n) == DiscoveryCount(b, n) + MultiCount(b, n)
  {
    var own := OfNode(b, n);
    FilterMembers(b, ByNode(n));
    FilterFilter(b, ByNode(n), (x: Event) => Multi(x.kind), SignalsOf(n));
    FilterFilter(b, ByNode(n), (x: Event) => !Multi(x.kind), DiscoveryOf(n));
    FilterComplement(own, (x: Event) => Multi(x.kind), (x: Event) => !Multi(x.kind));
  }

  // ---------------------------------------------------------------- eviction

  function Nodes(b: Bucket): set<string> {
    set e | e in b :: e.node
  }

  lemma {:induction false} FirstSeenIsNodes(b: Bucket)
    ensures forall n :: n in FirstSeen(b) <==> n in Nodes(b)
  {
    if |b| > 0 {
      var rest := b[..|b| - 1];
      assert b == rest + [b[|b| - 1]];
      FirstSeenIsNodes(rest);
      assert Nodes(b) == Nodes(rest) + {b[|b| - 1].node};
    }
  }

  lemma {:induction false} HeaviestIsMax(b: Bucket, nodes: seq<string>)
    ensures var h := Heaviest(b, nodes);
            && (h.None? ==> forall n :: n in nodes ==> Count(b, n) == 0)
            && (h.Some? ==> h.value in nodes && Count(b, h.value) > 0
                            && forall n :: n in nodes ==> Count(b, n) <= Count(b, h.value))
  {
    hide Count;
    if |nodes| > 0 {
      assert nodes == nodes[..|nodes| - 1] + [nodes[|nodes| - 1]];
      HeaviestIsMax(b, nodes[..|nodes| - 1]);
    }
  }

  lemma PresentCounts(b: Bucket, n: string)
    ensures n in Nodes(b) <==> Count(b, n) > 0
  {
    FilterMembers(b, ByNode(n));
    if n in Nodes(b) {
      var e :| e in b && e.node == n;
      assert e in OfNode(b, n);
    }
    if Count(b, n) > 0 {
      var e := OfNode(b, n)[0];
      assert e in OfNode(b, n);
      assert e in b && e.node == n;
    }
  }

  /** Eviction takes exactly one event: the first of the oldest of a node that
      holds the most events in the bucket. */
  lemma EvictionIsFair(b: Bucket) returns (k: nat)
    requires |b| > 0
    ensures k < |b| && Evicted(b) == RemoveAt(b, k)
    ensures forall n :: Count(b, n) <= Count(b, b[k].node)
    ensures forall j :: 0 <= j < |b| && b[j].node == b[k].node ==>
              b[k].createdAt < b[j].createdAt || (b[k].createdAt == b[j].createdAt && k <= j)
  {
    hide Count;
    var nodes := FirstSeen(b);
    FirstSeenIsNodes(b);
    HeaviestIsMax(b, nodes);
    var h := Heaviest(b, nodes);
    assert b[0] in b && b[0].node in nodes;
    PresentCounts(b, b[0].node);
    var victim := OldestOf(b, h.value, |b|);
    assert h.value in Nodes(b);
    k := victim.value;
    forall n ensures Count(b, n) <= Count(b, h.value) {
      PresentCounts(b, n);
    }
  }

  /** If no node holds more than `c` events, the bucket holds at most `c` per node. */
  lemma {:induction false} Pigeonhole(b: Bucket, c: nat)
    requires forall n :: Count(b, n) <= c
    ensures |b| <= c * |Nodes(b)|
    decreases |b|
  {
    if |b| > 0 {
      var n := b[0].node;
      var rest := WithoutNode(b, n);
      forall m ensures Count(rest, m) <= c {
        assert Count(b, m) <= c;
        FilteredCounts(b, (x: Event) => x.node != n, ByNode(m));
      }
      hide Count, WithoutNode;
      WithoutNodeSize(b, n);
      Pigeonhole(rest, c);
      assert c * |Nodes(b)| == c * |Nodes(rest)| + c;
    }
  }

  function WithoutNode(b: Bucket, n: string): Bucket {
    Filter(b, (x: Event) => x.node != n)
  }

  lemma WithoutNodeSize(b: Bucket, n: string)
    requires |b| > 0 && b[0].node == n
    ensures |WithoutNode(b, n)| == |b| - Count(b, n) < |b| && |Nodes(b)| == |Nodes(WithoutNode(b, n))| + 1
  {
    var keep := (x: Event) => x.node != n;
    FilterComplement(b, keep, ByNode(n));
    FilterMembers(b, keep);
    assert b[0] in b;
    PresentCounts(b, n);
    assert Nodes(WithoutNode(b, n)) == Nodes(b) - {n};
    assert n in Nodes(b);
  }

  /** In a full bucket with fewer than 1250 nodes, a node that only announces
      itself never pays for the others: eviction takes nothing from it. */
  lemma QuietNodesAreSpared(b: Bucket, n: string)
    requires Pairwise(b, Compatible) && |b| >= MAX_EVENTS_PER_NETWORK && |Nodes(b)| < 1250
    requires MultiCount(b, n) == 0
    ensures OfNode(Evicted(b), n) == OfNode(b, n)
  {
    var k := EvictionIsFair(b);
    FewDiscoveryEvents(b, n);
    CountSplits(b, n);
    assert Count(b, n) <= 4;
    assert !(forall m :: Count(b, m) <= 4) by {
      if forall m :: Count(b, m) <= 4 {
        Pigeonhole(b, 4);
      }
    }
    hide Count, MultiCount, DiscoveryCount, Evicted;
    assert b[k].node != n;
    RemovedOther(b, k, n);
  }

  lemma RemovedOther(b: Bucket, k: nat, n: string)
    requires k < |b| && b[k].node != n
    ensures OfNode(RemoveAt(b, k), n) == OfNode(b, n)
  {
    assert b == b[..k] + [b[k]] + b[k + 1..];
    FilterConcat(b[..k], b[k + 1..], ByNode(n));
    FilterConcat(b[..k] + [b[k]], b[k + 1..], ByNode(n));
    FilterAppend(b[..k], b[k], ByNode(n));
  }

  // ------------------------------------------------------------ preservation

  lemma RemoveAtPairwise(b: Bucket, k: nat)
    requires k < |b| && Pairwise(b, Compatible)
    ensures Pairwise(RemoveAt(b, k), Compatible)
  {
    hide Compatible;
  }

  lemma EvictedKeeps(b: Bucket)
    requires |b| > 0 && Pairwise(b, Compatible) && Capped(b)
    ensures |Evicted(b)| == |b| - 1 && Pairwise(Evicted(b), Compatible) && Capped(Evicted(b))
    ensures forall e :: e in Evicted(b) ==> e in b
  {
    var k := EvictionIsFair(b);
    RemoveAtPairwise(b, k);
    forall n ensures MultiCount(Evicted(b), n) <= MAX_SIGNALS_PER_NODE {
      assert MultiCount(b, n) <= MAX_SIGNALS_PER_NODE;
      RemovedCounts(b, k, SignalsOf(n));
    }
  }

  /** What a bucket may be on the way to admitting `e`: possibly empty, and free of
      anything that `e` replaces. */
  ghost predicate Ready(b: Bucket, e: Event) {
    && Pairwise(b, Compatible) && Capped(b)
    && (forall x :: x in b ==> x.id != e.id && x.network == e.network && !Supersedes(e, x))
    && (Multi(e.kind) ==> MultiCount(b, e.node) < MAX_SIGNALS_PER_NODE)
  }

  lemma SupersededReady(b: Bucket, e: Event)
    requires Pairwise(b, Compatible) && Capped(b) && (forall x :: x in b ==> x.network == e.network)
    requires !HasId(b, e.id) && (Multi(e.kind) ==> MultiCount(b, e.node) < MAX_SIGNALS_PER_NODE)
    ensures Ready(Superseded(b, e), e) && |Superseded(b, e)| <= |b|
  {
    var keep := (x: Event) => !Supersedes(e, x);
    FilterMembers(b, keep);
    FilterPairwise(b, keep, Compatible);
    forall n ensures MultiCount(Superseded(b, e), n) <= MultiCount(b, n) {
      FilteredCounts(b, keep, SignalsOf(n));
    }
    hide MultiCount, Compatible;
    forall x | x in Superseded(b, e) ensures x.id != e.id {
      assert x in b;
    }
  }

  lemma AppendedInv(b: Bucket, e: Event)
    requires Ready(b, e) && |b| < MAX_EVENTS_PER_NETWORK
    ensures BucketInv(e.network, b + [e])
  {
    forall n ensures MultiCount(b + [e], n) <= MAX_SIGNALS_PER_NODE {
      assert MultiCount(b, n) <= MAX_SIGNALS_PER_NODE;
      FilterAppend(b, e, SignalsOf(n));
    }
    hide MultiCount;
    assert forall k :: 0 <= k < |b| ==> b[k] in b;
  }

  lemma EvictedReady(b: Bucket, e: Event)
    requires Ready(b, e) && |b| > 0
    ensures Ready(Evicted(b), e) && |Evicted(b)| == |b| - 1
  {
    EvictedKeeps(b);
    var k := EvictionIsFair(b);
    RemovedCounts(b, k, SignalsOf(e.node));
    hide Compatible, Supersedes;
  }

  /** Admission keeps the bucket invariant, and the per-node event cap never refuses. */
  lemma AdmittedInv(b: Bucket, e: Event)
    requires |b| > 0 ==> BucketInv(e.network, b)
    ensures BucketInv(e.network, Admitted(b, e).0)
    ensures Admitted(b, e).1 != EventCap
  {
    if |b| == 0 {
      forall n ensures MultiCount(b, n) == 0 {}
    }
    assert Pairwise(b, Compatible) && Capped(b);
    hide Capped, Compatible, Evicted, MultiCount, DiscoveryCount, Superseded;
    if !HasId(b, e.id) && (Multi(e.kind) ==> MultiCount(b, e.node) < MAX_SIGNALS_PER_NODE) {
      SupersededReady(b, e);
      var kept := Superseded(b, e);
      FewDiscoveryEvents(kept, e.node);
      if |kept| >= MAX_EVENTS_PER_NETWORK {
        EvictedReady(kept, e);
        AppendedInv(Evicted(kept), e);
      } else {
        AppendedInv(kept, e);
      }
    }
  }

  lemma {:induction false} ColdestInList(activity: map<string, int>, nets: seq<string>)
    ensures var c := Coldest(activity, nets);
            && (c.None? <==> |nets| == 0)
            && (c.Some? ==> c.value in nets && forall n :: n in nets ==> Get(activity, c.value) <= Get(activity, n))
  {
    if |nets| > 0 {
      assert nets == nets[..|nets| - 1] + [nets[|nets| - 1]];
      ColdestInList(activity, nets[..|nets| - 1]);
    }
  }

  /** Evicting a network removes exactly one, one that was idle the longest, with
      everything the store kept about it. */
  lemma ColdestGoes(s: Store)
    requires StoreInv(s) && |s.networks.order| > 0
    ensures StoreInv(WithoutColdest(s)) && |WithoutColdest(s).networks.order| == |s.networks.order| - 1
    ensures exists c :: && c in s.networks.at && WithoutColdest(s).networks.at == s.networks.at - {c}
                        && WithoutColdest(s).joins == s.joins - {c}
                        && forall n :: n in s.networks.at ==> s.activity[c] <= s.activity[n]
  {
    ColdestInList(s.activity, s.networks.order);
    var c := Coldest(s.activity, s.networks.order).value;
    assert c in s.networks.at;
    DeleteOk(s.networks, c);
    hide BucketInv;
    assert WithoutColdest(s).networks.at == s.networks.at - {c};
    forall n | n in s.networks.at ensures s.activity[c] <= s.activity[n] {
      assert n in s.networks.order;
    }
  }

  /** After opening, every bucket but a brand-new one is in order. */
  ghost predicate OpenedInv(s: Store, network: string) {
    && MapOk(s.networks) && |s.networks.order| <= MAX_NETWORKS && JoinsInv(s.joins)
    && s.activity.Keys == s.networks.at.Keys && network in s.networks.at
    && forall n :: n in s.networks.at ==> BucketInv(n, s.networks.at[n]) || (n == network && s.networks.at[n] == [])
  }

  lemma OpenedKeeps(s: Store, network: string, now: int)
    requires StoreInv(s)
    ensures OpenedInv(Opened(s, network, now), network)
  {
    hide BucketInv;
    if network !in s.networks.at {
      if |s.networks.order| >= MAX_NETWORKS {
        ColdestGoes(s);
        hide WithoutColdest;
        FreshNetwork(WithoutColdest(s), network, now);
      } else {
        FreshNetwork(s, network, now);
      }
    }
  }

  lemma FreshNetwork(s: Store, network: string, now: int)
    requires StoreInv(s) && |s.networks.order| < MAX_NETWORKS && network !in s.networks.at
    ensures OpenedInv(s.(networks := Put(s.networks, network, []), activity := s.activity[network := now]), network)
  {
    hide BucketInv;
    PutOk(s.networks, network, []);
  }

  lemma JoinedOk(rows: Joins, e: Event, now: int)
    requires MapOk(rows)
    ensures MapOk(Joined(rows, e, now))
  {
    var v := Max(Get(rows.at, e.node), Min(e.expiresAt, now + JOIN_TTL));
    PutOk(rows, e.node, v);
    var more := Put(rows, e.node, v);
    var soonest := Soonest(more.at, more.order);
    if soonest.Some? {
      DeleteOk(more, soonest.value);
    }
  }

  lemma {:induction false} SoonestInList(at: map<string, int>, nodes: seq<string>)
    ensures var s := Soonest(at, nodes);
            && (s.None? <==> |nodes| == 0)
            && (s.Some? ==> s.value in nodes && forall n :: n in nodes ==> Get(at, s.value) <= Get(at, n))
  {
    if |nodes| > 0 {
      assert nodes == nodes[..|nodes| - 1] + [nodes[|nodes| - 1]];
      SoonestInList(at, nodes[..|nodes| - 1]);
    }
  }

  /** The membership index outgrows both its bound and its old size exactly when a
      newcomer to a full index expires before everybody in it: the entry to be
      evicted is then the newcomer's own, and the program keeps it. */
  lemma JoinIndexOutgrows(rows: Joins, e: Event, now: int)
    requires MapOk(rows)
    ensures |Joined(rows, e, now).order| > Max(MAX_JOINS_PER_NETWORK, |rows.order|) <==>
            && e.node !in rows.at && |rows.order| >= MAX_JOINS_PER_NETWORK
            && forall n :: n in rows.at ==> Max(0, Min(e.expiresAt, now + JOIN_TTL)) < rows.at[n]
  {
    var v := Max(Get(rows.at, e.node), Min(e.expiresAt, now + JOIN_TTL));
    var more := Put(rows, e.node, v);
    PutOk(rows, e.node, v);
    TrimmedSize(more, e.node);
    if e.node !in rows.at && |rows.order| >= MAX_JOINS_PER_NETWORK {
      NewcomerIsSoonest(rows, more, e.node, v);
    }
    hide MapOk, Soonest, Trimmed;
  }

  lemma TrimmedSize(rows: Joins, node: string)
    requires MapOk(rows)
    ensures |Trimmed(rows, node).order|
            == |rows.order|
               - if |rows.order| > MAX_JOINS_PER_NETWORK && Soonest(rows.at, rows.order) != Some(node) then 1 else 0
  {
    SoonestInList(rows.at, rows.order);
    var soonest := Soonest(rows.at, rows.order);
    if soonest.Some? {
      DeleteOk(rows, soonest.value);
    }
    hide Soonest, Delete;
  }

  lemma NewcomerIsSoonest(rows: Joins, more: Joins, node: string, v: int)
    requires MapOk(rows) && |rows.order| > 0 && node !in rows.at && more == Put(rows, node, v)
    ensures Soonest(more.at, more.order) == Some(node) <==> forall n :: n in rows.at ==> v < rows.at[n]
  {
    assert more.order[..|rows.order|] == rows.order;
    SoonestInList(more.at, rows.order);
    var best := Soonest(more.at, rows.order).value;
    assert best in rows.at && best != node;
    if v < Get(more.at, best) {
      forall n | n in rows.at ensures v < rows.at[n] {
        assert n in rows.order && Get(more.at, n) == rows.at[n];
      }
    }
  }

  lemma WithJoinKeeps(s: Store, e: Event, now: int)
    requires OpenedInv(s, e.network)
    ensures OpenedInv(WithJoin(s, e, now), e.network)
  {
    hide BucketInv;
    JoinedOk(JoinsOf(s.joins, e.network), e, now);
    hide Joined;
  }

  lemma AdmissionKeepsInv(s: Store, e: Event)
    requires OpenedInv(s, e.network)
    ensures var r := Admitted(s.networks.at[e.network], e);
            StoreInv(s.(networks := Put(s.networks, e.network, r.0))) && r.1 != EventCap
  {
    AdmittedInv(s.networks.at[e.network], e);
    hide BucketInv, Admitted;
    PutOk(s.networks, e.network, Admitted(s.networks.at[e.network], e).0);
  }

  /** Every add keeps the store in order, and none is refused for the per-node
      event cap. */
  lemma AddKeepsInv(s: Store, e: Event, now: int)
    requires StoreInv(s)
    ensures StoreInv(Add(s, e, now).0)
    ensures Add(s, e, now).1 != EventCap
  {
    hide StoreInv, OpenedInv, Opened, WithJoin, Admitted;
    OpenedKeeps(s, e.network, now);
    WithJoinKeeps(Opened(s, e.network, now), e, now);
    AdmissionKeepsInv(WithJoin(Opened(s, e.network, now), e, now), e);
  }

  lemma LiveEventsKeep(network: string, b: Bucket, now: int)
    requires BucketInv(network, b) && |LiveEvents(b, now)| > 0
    ensures BucketInv(network, LiveEvents(b, now))
  {
    var live := LiveAt(now);
    FilterMembers(b, live);
    FilterPairwise(b, live, Compatible);
    forall n ensures MultiCount(LiveEvents(b, now), n) <= MAX_SIGNALS_PER_NODE {
      assert MultiCount(b, n) <= MAX_SIGNALS_PER_NODE;
      FilteredCounts(b, live, SignalsOf(n));
    }
  }

  lemma LiveNetworksKeep(networks: JsMap<string, Bucket>, now: int)
    requires NetworksInv(networks)
    ensures NetworksInv(LiveNetworks(networks, now))
  {
    hide BucketInv, LiveEvents;
    var t := LiveNetworks(networks, now);
    FilterMembers(networks.order, LivesAt(networks, now));
    FilterDistinct(networks.order, LivesAt(networks, now));
    forall n | n in t.at ensures BucketInv(n, t.at[n]) {
      LiveEventsKeep(n, networks.at[n], now);
    }
  }

  /** Sweeping keeps the store in order. */
  lemma SweepKeepsInv(s: Store, now: int)
    requires StoreInv(s)
    ensures StoreInv(Swept(s, now))
  {
    LiveNetworksKeep(s.networks, now);
    hide NetworksInv, LiveEvents, MapOk;
    var t := Swept(s, now);
    forall n | n in t.joins ensures MapOk(t.joins[n]) {
      RetainOk(s.joins[n], LiveRow(s.joins[n], now));
    }
    assert t.activity.Keys == t.networks.at.Keys;
  }
}
