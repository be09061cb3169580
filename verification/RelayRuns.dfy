/** Properties of the relay over whole runs: the membership gate, who pays for
    room, and why sweeping is invisible. */
module RelayRuns {
  import opened Basics
  import opened Ordering
  import opened JsMaps
  import opened RelayStore
  import opened RelayInvariant
  import opened RelayEffects

  /** `valid` is the outcome of verifying the event before it is ingested. */
  datatype Op = Ingest(e: Event, valid: bool, now: nat) | Sweep(now: nat)

  /** The events that get past verification and the membership gate. */
  predicate Passes(s: Store, x: Event, valid: bool, now: int) {
    valid && (x.kind == JOIN || HasLiveJoin(s, x.network, x.node, now))
  }

  function Ingested(s: Store, e: Event, valid: bool, now: int): (Store, bool) {
    if !Passes(s, e, valid, now) then (s, false)
    else var r := Add(s, e, now); (r.0, r.1 == Stored || r.1 == Duplicate)
  }

  function Empty(): Store {
    Store(EmptyMap(), map[], map[])
  }

  function Step(s: Store, op: Op): Store {
    match op
    case Ingest(e, valid, now) => Ingested(s, e, valid, now).0
    case Sweep(now) => Swept(s, now)
  }

  function StoreAfter(ops: seq<Op>): Store {
    if |ops| == 0 then Empty() else Step(StoreAfter(ops[..|ops| - 1]), ops[|ops| - 1])
  }

  lemma AfterOneMore(ops: seq<Op>, op: Op)
    ensures StoreAfter(ops + [op]) == Step(StoreAfter(ops), op)
  {
    assert (ops + [op])[..|ops|] == ops;
  }

  /** Whether the `k`-th operation is an ingestion that the relay accepted. */
  predicate Accepted(ops: seq<Op>, k: nat) {
    k < |ops| && ops[k].Ingest? && Ingested(StoreAfter(ops[..k]), ops[k].e, ops[k].valid, ops[k].now).1
  }

  lemma {:induction false} RunInv(ops: seq<Op>)
    ensures StoreInv(StoreAfter(ops))
  {
    if |ops| > 0 {
      var s, op := StoreAfter(ops[..|ops| - 1]), ops[|ops| - 1];
      RunInv(ops[..|ops| - 1]);
      hide StoreInv, Add;
      if op.Sweep? {
        SweepKeepsInv(s, op.now);
      } else {
        AddKeepsInv(s, op.e, op.now);
      }
    }
  }

  // -------------------------------------------------------- membership gate

  /** An accepted JOIN among `ops` explains membership until `expiry`. */
  ghost predicate Sponsored(ops: seq<Op>, network: string, node: string, expiry: int) {
    exists j :: && 0 <= j < |ops| && ops[j].Ingest? && Accepted(ops, j) && ops[j].e.kind == JOIN
                && ops[j].e.network == network && ops[j].e.node == node
                && expiry <= ops[j].now + JOIN_TTL && expiry <= ops[j].e.expiresAt
  }

  ghost predicate AllSponsored(ops: seq<Op>, s: Store) {
    forall net, node :: net in s.joins && node in s.joins[net].at ==>
      s.joins[net].at[node] <= 0 || Sponsored(ops, net, node, s.joins[net].at[node])
  }

  lemma SponsoredExtends(ops: seq<Op>, op: Op, network: string, node: string, expiry: int)
    requires Sponsored(ops, network, node, expiry)
    ensures Sponsored(ops + [op], network, node, expiry)
  {
    hide Ingested;
    var j :| 0 <= j < |ops| && ops[j].Ingest? && Accepted(ops, j) && ops[j].e.kind == JOIN
      && ops[j].e.network == network
             && ops[j].e.node == node && expiry <= ops[j].now + JOIN_TTL && expiry <= ops[j].e.expiresAt;
    assert (ops + [op])[..j] == ops[..j];
    assert (ops + [op])[j] == ops[j];
    assert Accepted(ops + [op], j);
  }

  /** An add leaves every membership entry alone, drops it, or raises the joiner's. */
  lemma JoinsAfterAdd(s: Store, e: Event, now: int, net: string, node: string)
    requires var t := Add(s, e, now).0; net in t.joins && node in t.joins[net].at
    ensures var expiry := Add(s, e, now).0.joins[net].at[node];
            || (net in s.joins && node in s.joins[net].at && expiry == s.joins[net].at[node])
            || (e.kind == JOIN && net == e.network && node == e.node
                && (expiry == 0 || expiry == Min(e.expiresAt, now + JOIN_TTL)))
  {
    var s1 := Opened(s, e.network, now);
    assert forall n :: n in s1.joins ==> n in s.joins && s1.joins[n] == s.joins[n];
    hide Opened, Admitted;
    assert Add(s, e, now).0.joins == WithJoin(s1, e, now).joins;
  }

  lemma {:induction false} RunSponsored(ops: seq<Op>)
    ensures AllSponsored(ops, StoreAfter(ops))
  {
    if |ops| > 0 {
      var prior, op := ops[..|ops| - 1], ops[|ops| - 1];
      RunSponsored(prior);
      RunInv(prior);
      assert ops == prior + [op];
      SponsoredStep(prior, op, StoreAfter(prior));
    }
  }

  lemma SponsoredStep(prior: seq<Op>, op: Op, s: Store)
    requires s == StoreAfter(prior) && StoreInv(s) && AllSponsored(prior, s)
    ensures AllSponsored(prior + [op], Step(s, op))
  {
    var ops, t := prior + [op], Step(s, op);
    assert ops[..|prior|] == prior;
    hide StoreInv, Sponsored, Accepted, StoreAfter, Step;
    forall net, node | net in t.joins && node in t.joins[net].at && t.joins[net].at[node] > 0
      ensures Sponsored(ops, net, node, t.joins[net].at[node])
    {
      RowsAfterStep(s, op, net, node);
      if net in s.joins && node in s.joins[net].at && t.joins[net].at[node] == s.joins[net].at[node] {
        SponsoredExtends(prior, op, net, node, t.joins[net].at[node]);
      } else {
        AcceptedJoinSponsors(prior, op, s);
      }
    }
  }

  /** A positive entry was there before, or is what a verified JOIN of the node is good for. */
  lemma RowsAfterStep(s: Store, op: Op, net: string, node: string)
    requires var t := Step(s, op); net in t.joins && node in t.joins[net].at && t.joins[net].at[node] > 0
    ensures var expiry := Step(s, op).joins[net].at[node];
            || (net in s.joins && node in s.joins[net].at && expiry == s.joins[net].at[node])
            || (op.Ingest? && op.valid && op.e.kind == JOIN && net == op.e.network && node == op.e.node
                && expiry == Min(op.e.expiresAt, op.now + JOIN_TTL))
  {
    hide Add;
    if op.Ingest? && Passes(s, op.e, op.valid, op.now) {
      JoinsAfterAdd(s, op.e, op.now, net, node);
    }
  }

  /** A JOIN that reaches the store is always accepted, so what it enters in the
      index is backed by an acceptance. */
  lemma AcceptedJoinSponsors(prior: seq<Op>, op: Op, s: Store)
    requires s == StoreAfter(prior) && StoreInv(s) && op.Ingest? && op.valid && op.e.kind == JOIN
    ensures Sponsored(prior + [op], op.e.network, op.e.node, Min(op.e.expiresAt, op.now + JOIN_TTL))
  {
    var ops := prior + [op];
    AddKeepsInv(s, op.e, op.now);
    JoinNeverCapped(s, op.e, op.now);
    hide StoreInv, Add, StoreAfter;
    assert ops[..|prior|] == prior && ops[|prior|] == op;
    assert Accepted(ops, |prior|);
  }

  lemma JoinNeverCapped(s: Store, e: Event, now: int)
    requires e.kind == JOIN
    ensures Add(s, e, now).1 != SignalCap
  {
    hide Opened, WithJoin, HasId, MultiCount, DiscoveryCount, Superseded, Evicted;
  }

  /** Whatever was superseded, evicted or swept in between: an accepted non-JOIN
      event has an earlier accepted JOIN of the same node in the same network,
      younger than the JOIN lifetime and not past its own expiry. */
  lemma MembershipGate(ops: seq<Op>, k: nat) returns (j: nat)
    requires Accepted(ops, k) && ops[k].e.kind != JOIN
    ensures j < k && Accepted(ops, j) && ops[j].e.kind == JOIN
    ensures ops[j].e.network == ops[k].e.network && ops[j].e.node == ops[k].e.node
    ensures ops[k].now < ops[j].now + JOIN_TTL && ops[k].now < ops[j].e.expiresAt
  {
    hide StoreAfter, Step, Add, AllSponsored, Sponsored;
    var prior, e := ops[..k], ops[k].e;
    RunSponsored(prior);
    j := Sponsor(prior, StoreAfter(prior), e.network, e.node, ops[k].now);
    assert prior[..j] == ops[..j];
  }

  lemma Sponsor(prior: seq<Op>, s: Store, network: string, node: string, now: nat) returns (j: nat)
    requires AllSponsored(prior, s) && HasLiveJoin(s, network, node, now)
    ensures j < |prior| && Accepted(prior, j) && prior[j].e.kind == JOIN
    ensures prior[j].e.network == network && prior[j].e.node == node
    ensures now < prior[j].now + JOIN_TTL && now < prior[j].e.expiresAt
  {
    hide Accepted;
    var expiry := s.joins[network].at[node];
    assert Sponsored(prior, network, node, expiry);
    j :| && 0 <= j < |prior| && prior[j].Ingest? && Accepted(prior, j) && prior[j].e.kind == JOIN
      && prior[j].e.network == network
         && prior[j].e.node == node && expiry <= prior[j].now + JOIN_TTL && expiry <= prior[j].e.expiresAt;
  }

  /** A JOIN of the node that the relay accepted still counts at `now`. */
  ghost predicate HasJoined(ops: seq<Op>, network: string, node: string, now: nat) {
    exists j :: && 0 <= j < |ops| && Accepted(ops, j) && ops[j].e.kind == JOIN
                && ops[j].e.network == network && ops[j].e.node == node
                && now < ops[j].now + JOIN_TTL && now < ops[j].e.expiresAt
  }

  lemma MembersHaveJoined(ops: seq<Op>, network: string, node: string, now: nat)
    ensures HasLiveJoin(StoreAfter(ops), network, node, now) ==> HasJoined(ops, network, node, now)
  {
    hide StoreAfter, Accepted, AllSponsored;
    RunSponsored(ops);
    if HasLiveJoin(StoreAfter(ops), network, node, now) {
      var j := Sponsor(ops, StoreAfter(ops), network, node, now);
      assert Accepted(ops, j);
    }
  }

  // -------------------------------------------------------------- fair room

  lemma {:induction false} SupersededOthers(b: Bucket, e: Event, n: string)
    requires n != e.node
    ensures OfNode(Superseded(b, e), n) == OfNode(b, n)
  {
    FilterFilter(b, (x: Event) => !Supersedes(e, x), ByNode(n), ByNode(n));
  }

  lemma AdmittedSpares(b: Bucket, e: Event, n: string)
    requires BucketInv(e.network, b) && |Nodes(b)| < 1250 && MultiCount(b, n) == 0
    ensures var r := Admitted(b, e);
            if r.1 == Stored
            then OfNode(r.0, n) == OfNode(Superseded(b, e), n) + (if e.node == n then [e] else [])
            else r.0 == b
  {
    var kept := Superseded(b, e);
    KeptSpares(b, e, n);
    hide Superseded, Evicted, MultiCount, DiscoveryCount, HasId, BucketInv, OfNode;
    OfNodeAppend(kept, e, n);
    OfNodeAppend(Evicted(kept), e, n);
  }

  lemma OfNodeAppend(b: Bucket, e: Event, n: string)
    ensures OfNode(b + [e], n) == OfNode(b, n) + if e.node == n then [e] else []
  {
    FilterAppend(b, e, ByNode(n));
  }

  /** What supersession leaves is within the per-node cap, and eviction from it
      takes nothing from a quiet node. */
  lemma KeptSpares(b: Bucket, e: Event, n: string)
    requires BucketInv(e.network, b) && |Nodes(b)| < 1250 && MultiCount(b, n) == 0
    ensures var kept := Superseded(b, e);
            && DiscoveryCount(kept, e.node) <= 4
            && (|kept| >= MAX_EVENTS_PER_NETWORK ==> OfNode(Evicted(kept), n) == OfNode(kept, n))
  {
    var keep := (x: Event) => !Supersedes(e, x);
    var kept := Superseded(b, e);
    FilterMembers(b, keep);
    FilterPairwise(b, keep, Compatible);
    FilteredCounts(b, keep, SignalsOf(n));
    FewDiscoveryEvents(kept, e.node);
    assert Nodes(kept) <= Nodes(b);
    SubsetSize(Nodes(kept), Nodes(b));
    hide Superseded, Evicted, OfNode, DiscoveryCount;
    if |kept| >= MAX_EVENTS_PER_NETWORK {
      QuietNodesAreSpared(kept, n);
    }
  }

  /** In any reachable store, making room takes nothing from a node that has no
      SIGNAL or INVITE stored, as long as its network has fewer than 1250 nodes:
      what 5000 events spread over so few nodes leaves for the heaviest is more
      than the four events such a node can have. Its events go only when its own
      newer ones replace them. */
  lemma QuietMembersKeepTheirEvents(ops: seq<Op>, e: Event, now: int, n: string)
    requires var s := StoreAfter(ops);
             && e.network in s.networks.at
             && |Nodes(s.networks.at[e.network])| < 1250 && PointToPoint(s.networks.at[e.network], n) == 0
    ensures var s, r := StoreAfter(ops), Add(StoreAfter(ops), e, now);
            var before, after := s.networks.at[e.network], r.0.networks.at[e.network];
            && (if r.1 == Stored
                then OwnEvents(after, n) == OwnEvents(Remaining(before, e), n) + (if e.node == n then [e] else [])
                else after == before)
            && (n != e.node ==> OwnEvents(after, n) == OwnEvents(before, n))
  {
    RunInv(ops);
    var s := StoreAfter(ops);
    var b := s.networks.at[e.network];
    PointToPointIsMulti(b, n);
    RemainingIsSuperseded(b, e);
    EventsByIsCount(b, n);
    EventsByIsCount(Superseded(b, e), n);
    EventsByIsCount(Admitted(b, e).0, n);
    AdmittedSpares(b, e, n);
    if n != e.node {
      SupersededOthers(b, e, n);
    }
    hide Admitted, StoreAfter, Superseded, OfNode, OwnEvents, Remaining, MultiCount, PointToPoint;
    assert WithJoin(Opened(s, e.network, now), e, now).networks == s.networks;
    hide WithJoin, Opened;
    assert Add(s, e, now).0.networks.at[e.network] == Admitted(b, e).0;
  }

  // ------------------------------------------------- how an event can be lost

  predicate Holds(s: Store, e: Event) {
    e in BucketOf(s, e.network)
  }

  /** Too few nodes for the caps to press, and a node without SIGNALs and INVITEs. */
  ghost predicate Quiet(s: Store, network: string, node: string) {
    |Nodes(BucketOf(s, network))| < 1250 && PointToPoint(BucketOf(s, network), node) == 0
  }

  /** The events that get past verification and the membership gate. */
  predicate Enters(s: Store, x: Event, valid: bool, now: int) {
    valid && (x.kind == JOIN || IsMember(s, x.network, x.node, now))
  }

  /** A new event of the same node and kind takes its place. */
  predicate Replaces(s: Store, x: Event, e: Event) {
    && x.network == e.network && (forall y :: y in BucketOf(s, e.network) ==> y.id != x.id)
    && x.node == e.node && x.kind == e.kind && OneOfAKind(x.kind)
  }

  /** A sweep finds the event expired, or an event enters that replaces it or takes the
      room of its whole network. */
  ghost predicate Loses(s: Store, op: Op, e: Event) {
    match op
    case Sweep(now) => e.expiresAt <= now
    case Ingest(x, valid, now) =>
      Enters(s, x, valid, now) && (Replaces(s, x, e) || (FullFor(s, x.network) && Idlest(s, e.network)))
  }

  lemma EntersIfPasses(s: Store, x: Event, valid: bool, now: int)
    ensures Enters(s, x, valid, now) <==> Passes(s, x, valid, now)
  {
  }

  /** A new SIGNAL or INVITE beyond 256 of its node. */
  ghost predicate OneTooMany(s: Store, e: Event) {
    var b := BucketOf(s, e.network);
    ManyOfAKind(e.kind) && PointToPoint(b, e.node) >= 256 && forall x :: x in b ==> x.id != e.id
  }

  ghost predicate IsAccepted(s: Store, e: Event, valid: bool, now: int) {
    Enters(s, e, valid, now) && !OneTooMany(s, e)
  }

  /** What the relay says to a publisher: it accepts what is verified and either a JOIN or
      of a member, unless it is a new SIGNAL or INVITE beyond 256 of its node; what it
      refuses at the door leaves no trace. */
  lemma IngestDecides(s: Store, e: Event, valid: bool, now: int)
    requires StoreInv(s)
    ensures Ingested(s, e, valid, now).1 <==> IsAccepted(s, e, valid, now)
    ensures !Enters(s, e, valid, now) ==> Ingested(s, e, valid, now).0 == s
  {
    EntersIfPasses(s, e, valid, now);
    AddAdmits(s, e, now);
    AdmissionOutcome(BucketOf(s, e.network), e);
    hide Add, Admitted, PointToPoint, BucketOk, StoreInv, IsMember;
  }

  /** A quiet node's event leaves the store in exactly three ways: a sweep after its
      expiry, a new event of that node and kind, or the loss of its whole network. */
  lemma KeptUnlessLost(s: Store, op: Op, e: Event)
    requires StoreInv(s) && Holds(s, e) && Quiet(s, e.network, e.node)
    ensures Holds(Step(s, op), e) <==> !Loses(s, op, e)
  {
    hide StoreInv, Quiet, Add, Replaces, Passes, Idlest, FullFor;
    match op
    case Sweep(now) => SweptHolds(s, now, e);
    case Ingest(x, valid, now) =>
      EntersIfPasses(s, x, valid, now);
      AddedHolds(s, x, now, e);
  }

  lemma SweptHolds(s: Store, now: int, e: Event)
    requires Holds(s, e)
    ensures Holds(Swept(s, now), e) <==> e.expiresAt > now
  {
    FilterMembers(BucketOf(s, e.network), LiveAt(now));
  }

  lemma AddedHolds(s: Store, x: Event, now: int, e: Event)
    requires StoreInv(s) && Holds(s, e) && Quiet(s, e.network, e.node)
    ensures Holds(Add(s, x, now).0, e) <==>
            !Replaces(s, x, e) && !(FullFor(s, x.network) && Idlest(s, e.network))
  {
    var b := BucketOf(s, e.network);
    if x.network == e.network {
      AddAdmits(s, x, now);
      PointToPointIsMulti(b, e.node);
      AdmittedHolds(b, x, e);
    } else {
      AddSparesOthers(s, x, now, e.network);
    }
    hide Add, Admitted, Idlest, BucketInv, MultiCount, PointToPoint;
  }

  lemma AdmittedHolds(b: Bucket, x: Event, e: Event)
    requires BucketInv(e.network, b) && x.network == e.network && e in b
    requires |Nodes(b)| < 1250 && MultiCount(b, e.node) == 0
    ensures e in Admitted(b, x).0 <==>
            !(x.node == e.node && x.kind == e.kind && OneOfAKind(x.kind) && forall y :: y in b ==> y.id != x.id)
  {
    AdmittedSpares(b, x, e.node);
    AdmissionOutcome(b, x);
    RemainingIsSuperseded(b, x);
    InRemaining(b, x, e);
    FilterMembers(Superseded(b, x), ByNode(e.node));
    FilterMembers(Admitted(b, x).0, ByNode(e.node));
    hide BucketInv, MultiCount, PointToPoint, Superseded, Admitted, Remaining;
    assert e in OfNode(Admitted(b, x).0, e.node) <==> e in Admitted(b, x).0;
    assert e in OfNode(Superseded(b, x), e.node) <==> e in Superseded(b, x);
    if Admitted(b, x).1 == Stored {
      assert x.id != e.id;
    }
  }

  /** Whatever else happens: as long as its network stays below 1250 nodes and its
      node stores no SIGNAL or INVITE, an event is in the store all the way if and
      only if no step replaces it, displaces its network or sweeps it after its
      expiry. */
  lemma {:induction false} QuietEventsLast(ops: seq<Op>, k: nat, m: nat, e: Event)
    requires k <= m <= |ops| && Holds(StoreAfter(ops[..k]), e)
    requires forall i :: k <= i < m ==> Quiet(StoreAfter(ops[..i]), e.network, e.node)
    ensures (forall i :: k <= i <= m ==> Holds(StoreAfter(ops[..i]), e))
            <==> forall i :: k <= i < m ==> !Loses(StoreAfter(ops[..i]), ops[i], e)
    decreases m
  {
    hide StoreAfter, Step, Holds, Loses, Quiet;
    if k < m {
      QuietEventsLast(ops, k, m - 1, e);
      var s := StoreAfter(ops[..m - 1]);
      AfterOneMore(ops[..m - 1], ops[m - 1]);
      assert ops[..m] == ops[..m - 1] + [ops[m - 1]];
      RunInv(ops[..m - 1]);
      if Holds(s, e) {
        KeptUnlessLost(s, ops[m - 1], e);
      }
    }
  }

  // ------------------------------------------------------- query and sweep

  lemma CreatedBeforeIsOrder()
    ensures StrictWeakOrder(CreatedBefore)
  {
  }

  function CreatedAt(at: int): Event -> bool {
    (e: Event) => e.createdAt == at
  }

  /** A query returns exactly the events wanted, ordered by creation time, in arrival
      order where times agree. */
  lemma QueryIsExact(s: Store, f: EventFilter, now: int)
    ensures forall e :: e in Query(s, f, now) <==> e in BucketOf(s, f.network) && Wanted(e, f, now)
    ensures var found := Query(s, f, now);
            forall i, j :: 0 <= i < j < |found| ==> found[i].createdAt <= found[j].createdAt
    ensures forall at :: Filter(Query(s, f, now), CreatedAt(at))
                         == Filter(Filter(BucketOf(s, f.network), (e: Event) => Wanted(e, f, now)), CreatedAt(at))
  {
    var hits := Filter(BucketOf(s, f.network), (e: Event) => Matches(e, f, now));
    WantedMatches(BucketOf(s, f.network), f, now);
    FilterMembers(BucketOf(s, f.network), (e: Event) => Wanted(e, f, now));
    SortContents(hits, CreatedBefore);
    CreatedBeforeIsOrder();
    SortSorted(hits, CreatedBefore);
    forall at ensures Filter(Query(s, f, now), CreatedAt(at)) == Filter(hits, CreatedAt(at)) {
      SortStable(hits, CreatedBefore, CreatedAt(at));
    }
  }

  /** Sweeping earlier changes no later answer: the same list in the same order. */
  lemma SweepKeepsQueries(s: Store, swept: int, f: EventFilter, now: int)
    requires swept <= now
    ensures Query(Swept(s, swept), f, now) == Query(s, f, now)
  {
    var b := BucketOf(s, f.network);
    FilterFilter(b, LiveAt(swept), (e: Event) => Matches(e, f, now), (e: Event) => Matches(e, f, now));
    assert BucketOf(Swept(s, swept), f.network) == LiveEvents(b, swept);
  }

  /** Nor does it change who counts as a member. */
  lemma SweepKeepsMembers(s: Store, swept: int, network: string, node: string, now: int)
    requires StoreInv(s) && swept <= now
    ensures HasLiveJoin(Swept(s, swept), network, node, now) == HasLiveJoin(s, network, node, now)
  {
    hide NetworksInv, LiveEvents;
    if HasLiveJoin(s, network, node, now) {
      var rows := s.joins[network];
      FilterMembers(rows.order, LiveRow(rows, swept));
      assert node in LiveJoins(rows, swept).order;
    }
  }
}
