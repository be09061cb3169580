/** The relay's event store: admission, supersession, caps, eviction, queries and
    the expiry sweep. */
module RelayStore {
  import opened Basics
  import opened Ordering
  import opened JsMaps

  const MAX_EVENTS_PER_NETWORK: nat := 5000
  const MAX_EVENTS_PER_NODE: nat := 16
  const MAX_SIGNALS_PER_NODE: nat := 256
  const MAX_NETWORKS: nat := 1000
  const MAX_JOINS_PER_NETWORK: nat := 2000
  const JOIN_TTL: nat := 300

  datatype Kind = JOIN | HEARTBEAT | LEAVE | MANIFEST | INVITE | SIGNAL

  /** `target` is the addressee of a SIGNAL. */
  datatype Event = Event(id: string, kind: Kind, network: string, node: string,
                         createdAt: int, expiresAt: int, target: string, body: string)

  /** Absent criteria are the empty string and zero, as the source tests them. */
  datatype EventFilter = EventFilter(network: string, kinds: Option<set<Kind>>, node: string, target: string,
                                     since: int)

  type Bucket = seq<Event>
  type Joins = JsMap<string, int>

  /** `networks` maps a network to its events in arrival order. */
  datatype Store = Store(networks: JsMap<string, Bucket>, joins: map<string, Joins>, activity: map<string, int>)

  datatype Outcome = Stored | Duplicate | SignalCap | EventCap

  predicate Multi(k: Kind) {
    k == SIGNAL || k == INVITE
  }

  function Get(m: map<string, int>, k: string): int {
    if k in m then m[k] else 0
  }

  // --------------------------------------------------------------- buckets

  predicate HasId(b: Bucket, id: string) {
    exists k :: 0 <= k < |b| && b[k].id == id
  }

  function ByNode(node: string): Event -> bool {
    (x: Event) => x.node == node
  }

  function SignalsOf(node: string): Event -> bool {
    (x: Event) => x.node == node && Multi(x.kind)
  }

  function DiscoveryOf(node: string): Event -> bool {
    (x: Event) => x.node == node && !Multi(x.kind)
  }

  function OfNode(b: Bucket, node: string): Bucket {
    Filter(b, ByNode(node))
  }

  function Count(b: Bucket, node: string): nat {
    |OfNode(b, node)|
  }

  function MultiCount(b: Bucket, node: string): nat {
    |Filter(b, SignalsOf(node))|
  }

  function DiscoveryCount(b: Bucket, node: string): nat {
    |Filter(b, DiscoveryOf(node))|
  }

  predicate Supersedes(e: Event, prior: Event) {
    !Multi(e.kind) && prior.node == e.node && prior.kind == e.kind
  }

  function Superseded(b: Bucket, e: Event): Bucket {
    Filter(b, (x: Event) => !Supersedes(e, x))
  }

  function RemoveAt<T>(s: seq<T>, k: nat): seq<T>
    requires k < |s|
  {
    s[..k] + s[k + 1..]
  }

  /** The nodes of a bucket, each once, by first appearance. */
  function FirstSeen(b: Bucket): seq<string> {
    if |b| == 0 then [] else
      var rest := FirstSeen(b[..|b| - 1]);
      var node := b[|b| - 1].node;
      if node in rest then rest else rest + [node]
  }

  /** The first of `nodes` with the most events. */
  function Heaviest(b: Bucket, nodes: seq<string>): Option<string> {
    if |nodes| == 0 then None else
      var best := Heaviest(b, nodes[..|nodes| - 1]);
      var node := nodes[|nodes| - 1];
      if Count(b, node) > (if best.Some? then Count(b, best.value) else 0) then Some(node) else best
  }

  /** Where the first of the oldest events of `node` stands among the first `n`. */
  function OldestOf(b: Bucket, node: string, n: nat): (r: Option<nat>)
    requires n <= |b|
    ensures r.Some? ==> r.value < n && b[r.value].node == node
    ensures r.None? ==> forall j :: 0 <= j < n ==> b[j].node != node
    ensures r.Some? ==> forall j :: 0 <= j < n && b[j].node == node ==>
                          || b[r.value].createdAt < b[j].createdAt
                          || (b[r.value].createdAt == b[j].createdAt && r.value <= j)
  {
    if n == 0 then None else
      var best := OldestOf(b, node, n - 1);
      if b[n - 1].node != node then best
      else if best.None? || b[n - 1].createdAt < b[best.value].createdAt then Some(n - 1) else best
  }

  /** Max-min fair eviction. */
  function Evicted(b: Bucket): Bucket {
    var heaviest := Heaviest(b, FirstSeen(b));
    if heaviest.None? then b else
      var victim := OldestOf(b, heaviest.value, |b|);
      if victim.None? then b else RemoveAt(b, victim.value)
  }

  /** Admission of an event to its bucket. */
  function Admitted(b: Bucket, e: Event): (Bucket, Outcome) {
    if HasId(b, e.id) then (b, Duplicate)
    else if Multi(e.kind) && MultiCount(b, e.node) >= MAX_SIGNALS_PER_NODE then (b, SignalCap)
    else
      var kept := Superseded(b, e);
      if !Multi(e.kind) && DiscoveryCount(kept, e.node) >= MAX_EVENTS_PER_NODE then (kept, EventCap)
      else
        var room := if |kept| >= MAX_EVENTS_PER_NETWORK then Evicted(kept) else kept;
        (room + [e], Stored)
  }

  // ------------------------------------------------------------ join index

  /** The first of `nodes` whose entry expires soonest. */
  function Soonest(at: map<string, int>, nodes: seq<string>): Option<string> {
    if |nodes| == 0 then None else
      var best := Soonest(at, nodes[..|nodes| - 1]);
      var node := nodes[|nodes| - 1];
      if best.None? || Get(at, node) < Get(at, best.value) then Some(node) else best
  }

  function Trimmed(rows: Joins, node: string): Joins {
    if |rows.order| <= MAX_JOINS_PER_NETWORK then rows else
      var soonest := Soonest(rows.at, rows.order);
      if soonest.Some? && soonest.value != node then Delete(rows, soonest.value) else rows
  }

  /** The membership index after a JOIN. */
  function Joined(rows: Joins, e: Event, now: int): Joins {
    Trimmed(Put(rows, e.node, Max(Get(rows.at, e.node), Min(e.expiresAt, now + JOIN_TTL))), e.node)
  }

  function JoinsOf(joins: map<string, Joins>, network: string): Joins {
    if network in joins then joins[network] else EmptyMap()
  }

  predicate HasLiveJoin(s: Store, network: string, node: string, now: int) {
    network in s.joins && node in s.joins[network].at && s.joins[network].at[node] > now
  }

  // ------------------------------------------------------------------- add

  /** The first of `nets` that has been idle the longest. */
  function Coldest(activity: map<string, int>, nets: seq<string>): Option<string> {
    if |nets| == 0 then None else
      var best := Coldest(activity, nets[..|nets| - 1]);
      var net := nets[|nets| - 1];
      if best.None? || Get(activity, net) < Get(activity, best.value) then Some(net) else best
  }

  function WithoutColdest(s: Store): Store {
    var coldest := Coldest(s.activity, s.networks.order);
    if coldest.None? then s else
      Store(Delete(s.networks, coldest.value), s.joins - {coldest.value}, s.activity - {coldest.value})
  }

  /** Room for the event's network, which becomes the most recently active one. */
  function Opened(s: Store, network: string, now: int): (r: Store)
    ensures network in r.networks.at
  {
    var s1 := if network in s.networks.at then s else
                var s0 := if |s.networks.order| >= MAX_NETWORKS then WithoutColdest(s) else s;
                s0.(networks := Put(s0.networks, network, []));
    s1.(activity := s1.activity[network := now])
  }

  function WithJoin(s: Store, e: Event, now: int): Store {
    if e.kind != JOIN then s else
      s.(joins := s.joins[e.network := Joined(JoinsOf(s.joins, e.network), e, now)])
  }

  function Add(s: Store, e: Event, now: int): (Store, Outcome) {
    var s1 := WithJoin(Opened(s, e.network, now), e, now);
    var r := Admitted(s1.networks.at[e.network], e);
    (s1.(networks := Put(s1.networks, e.network, r.0)), r.1)
  }

  // --------------------------------------------------------- query and sweep

  predicate Matches(e: Event, f: EventFilter, now: int) {
    && e.expiresAt > now && e.network == f.network
    && (f.kinds.None? || e.kind in f.kinds.value)
    && (f.node == "" || e.node == f.node)
    && (f.since == 0 || e.createdAt >= f.since)
    && (e.kind == SIGNAL ==> f.target != "" && e.target == f.target)
  }

  predicate CreatedBefore(a: Event, b: Event) {
    a.createdAt < b.createdAt
  }

  function BucketOf(s: Store, network: string): Bucket {
    if network in s.networks.at then s.networks.at[network] else []
  }

  function Query(s: Store, f: EventFilter, now: int): seq<Event> {
    Sort(Filter(BucketOf(s, f.network), (e: Event) => Matches(e, f, now)), CreatedBefore)
  }

  function LiveAt(now: int): Event -> bool {
    (e: Event) => e.expiresAt > now
  }

  function LiveEvents(b: Bucket, now: int): Bucket {
    Filter(b, LiveAt(now))
  }

  function LiveRow(rows: Joins, now: int): string -> bool {
    (n: string) => Get(rows.at, n) > now
  }

  function LiveJoins(rows: Joins, now: int): Joins {
    Retain(rows, LiveRow(rows, now))
  }

  predicate NetworkLives(networks: JsMap<string, Bucket>, n: string, now: int) {
    n in networks.at && |LiveEvents(networks.at[n], now)| > 0
  }

  function LivesAt(networks: JsMap<string, Bucket>, now: int): string -> bool {
    (n: string) => NetworkLives(networks, n, now)
  }

  function LiveNetworks(networks: JsMap<string, Bucket>, now: int): JsMap<string, Bucket> {
    JsMap(map n | n in networks.at && NetworkLives(networks, n, now) :: LiveEvents(networks.at[n], now),
          Filter(networks.order, LivesAt(networks, now)))
  }

  function Swept(s: Store, now: int): Store {
    Store(LiveNetworks(s.networks, now),
          map n | n in s.joins && |LiveJoins(s.joins[n], now).order| > 0 :: LiveJoins(s.joins[n], now),
          map n | n in s.activity && (n in s.networks.at ==> NetworkLives(s.networks, n, now)) :: s.activity[n])
  }
}
