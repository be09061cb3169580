/** How deliveries by several relays become observations and sightings, and what two
    members that received the same deliveries have in common. */
module CandidateFeed {
  import opened Basics
  import opened Ordering
  import opened JsMaps
  import opened Discovery
  import opened Candidates
  import opened CandidateHistory

  /** An event as a relay delivers it, with the latency then known of a link to its node;
      `forgotten` if the pool, which forgets the older half of its ids from time to time,
      does not remember the id. A copy of a known id is not verified again, but it has to
      name the same node and type and then counts like the event itself. */
  datatype Delivery = Delivery(id: string, s: Sign, relay: string, hint: Latency, forgotten: bool)

  predicate Remembered(earlier: seq<Delivery>, d: Delivery) {
    !d.forgotten && exists i :: 0 <= i < |earlier| && earlier[i].id == d.id
  }

  function ReportOf(d: Delivery): Report {
    Report(d.s, d.relay, d.hint)
  }

  /** Every delivery is a sighting; only one of an unknown id is observed. */
  function OpsOf(ds: seq<Delivery>): seq<BookOp> {
    if |ds| == 0 then [] else
      var rest, d := ds[..|ds| - 1], ds[|ds| - 1];
      OpsOf(rest) + [Sight(d.s.node, d.relay)] + if Remembered(rest, d) then [] else [Observe(ReportOf(d))]
  }

  /** The deliveries of a node's events that were observed. */
  function Fresh(ds: seq<Delivery>, node: string): seq<Report> {
    if |ds| == 0 then [] else
      var rest, d := ds[..|ds| - 1], ds[|ds| - 1];
      Fresh(rest, node) + if d.s.node == node && !Remembered(rest, d) then [ReportOf(d)] else []
  }

  function SignsOf(ds: seq<Delivery>, node: string): set<Sign> {
    set d | d in ds && d.s.node == node :: d.s
  }

  function RelaysFor(ds: seq<Delivery>, node: string): set<string> {
    set d | d in ds && d.s.node == node :: d.relay
  }

  /** An id names one event, and a node id one key. */
  ghost predicate Genuine(ds: seq<Delivery>) {
    && (forall d, e :: d in ds && e in ds && d.id == e.id ==> d.s == e.s)
    && (forall d, e :: d in ds && e in ds && d.s.node == e.s.node ==> d.s.pubkey == e.s.pubkey)
  }

  lemma StoryLast(p: Policy, ops: seq<BookOp>, op: BookOp, node: string)
    ensures StoryOf(p, ops + [op], node) == StoryNext(p, StoryOf(p, ops, node), op, node)
  {
    assert (ops + [op])[..|ops|] == ops;
  }

  lemma StoryOfDelivery(p: Policy, ops: seq<BookOp>, d: Delivery, again: bool, node: string)
    ensures var story := StoryOf(p, ops, node);
            StoryOf(p, ops + [Sight(d.s.node, d.relay)] + (if again then [] else [Observe(ReportOf(d))]), node)
            == if d.s.node != node then story
               else if again then story.(relays := story.relays + {d.relay})
               else story.(relays := story.relays + {d.relay}, heard := story.heard + [ReportOf(d)])
  {
    hide StoryOf;
    var sight, observe := Sight(d.s.node, d.relay), Observe(ReportOf(d));
    StoryLast(p, ops, sight, node);
    StoryLast(p, ops + [sight], observe, node);
    assert ops + [sight] + [] == ops + [sight];
    assert {d.relay} + {d.relay} == {d.relay};
  }

  /** What a member knows of a node: all its relays, and the events that were new. */
  lemma {:induction false} FeedStory(p: Policy, ds: seq<Delivery>, node: string)
    ensures var story := StoryOf(p, OpsOf(ds), node);
            story.base == None && story.heard == Fresh(ds, node) && story.relays == RelaysFor(ds, node)
  {
    if |ds| > 0 {
      var rest, d := ds[..|ds| - 1], ds[|ds| - 1];
      assert ds == rest + [d];
      FeedStory(p, rest, node);
      StoryOfDelivery(p, OpsOf(rest), d, Remembered(rest, d), node);
      RelaysForMore(rest, d, node);
      hide StoryOf, Remembered, RelaysFor, ReportOf;
      assert Fresh(rest, node) + [] == Fresh(rest, node);
    }
  }

  lemma RelaysForMore(rest: seq<Delivery>, d: Delivery, node: string)
    ensures RelaysFor(rest + [d], node) == RelaysFor(rest, node) + if d.s.node == node then {d.relay} else {}
  {
    assert forall e :: e in rest + [d] <==> e in rest || e == d;
  }

  lemma SignsOfMore(rest: seq<Delivery>, d: Delivery, node: string)
    ensures SignsOf(rest + [d], node) == SignsOf(rest, node) + if d.s.node == node then {d.s} else {}
  {
    assert forall e :: e in rest + [d] <==> e in rest || e == d;
  }

  lemma RememberedWasSeen(rest: seq<Delivery>, d: Delivery)
    requires Genuine(rest + [d]) && Remembered(rest, d)
    ensures d.s in SignsOf(rest, d.s.node)
  {
    var i :| 0 <= i < |rest| && rest[i].id == d.id;
    assert (rest + [d])[i] == rest[i] && (rest + [d])[|rest|] == d;
    assert rest[i] in rest + [d] && d in rest + [d] && rest[i] in rest;
  }

  /** No event is overlooked. */
  lemma {:induction false} FreshAreAll(ds: seq<Delivery>, node: string)
    requires Genuine(ds)
    ensures SignSet(Fresh(ds, node)) == SignsOf(ds, node)
  {
    if |ds| > 0 {
      var rest, d := ds[..|ds| - 1], ds[|ds| - 1];
      assert ds == rest + [d];
      assert forall e :: e in rest ==> e in ds;
      FreshAreAll(rest, node);
      SignsOfMore(rest, d, node);
      hide SignSet, SignsOf, Remembered, Genuine;
      if Remembered(rest, d) {
        RememberedWasSeen(rest, d);
      } else {
        SignSetMore(Fresh(rest, node), ReportOf(d), Unknown);
      }
    }
  }

  ghost predicate Delivered(ds: seq<Delivery>, s: Sign, relay: string) {
    exists d :: d in ds && d.s == s && d.relay == relay
  }

  /** Every event by every relay that delivered it, in whatever order and however often. */
  ghost predicate SameDeliveries(a: seq<Delivery>, b: seq<Delivery>) {
    forall s, relay :: Delivered(a, s, relay) <==> Delivered(b, s, relay)
  }

  lemma SameDeliveriesSameSets(a: seq<Delivery>, b: seq<Delivery>, node: string)
    requires SameDeliveries(a, b)
    ensures SignsOf(a, node) <= SignsOf(b, node) && RelaysFor(a, node) <= RelaysFor(b, node)
  {
    forall d | d in a ensures exists e :: e in b && e.s == d.s && e.relay == d.relay {
      assert Delivered(a, d.s, d.relay);
    }
  }

  lemma SameDeliveriesSameStory(p: Policy, a: seq<Delivery>, b: seq<Delivery>, node: string)
    requires Genuine(a) && Genuine(b) && SameDeliveries(a, b)
    ensures SameStory(StoryOf(p, OpsOf(a), node), StoryOf(p, OpsOf(b), node))
  {
    SameDeliveriesSameSets(a, b, node);
    SameDeliveriesSameSets(b, a, node);
    FeedStory(p, a, node);
    FeedStory(p, b, node);
    FreshAreAll(a, node);
    FreshAreAll(b, node);
    SignsHaveOneKey(a, node);
    hide SameDeliveries, StoryOf, OpsOf, Fresh, SignSet, RelaysFor, OneKey, SignsOf, Genuine;
  }

  lemma SignsHaveOneKey(ds: seq<Delivery>, node: string)
    requires Genuine(ds)
    ensures OneKey(SignsOf(ds, node))
  {
  }

  lemma SameDeliveriesSameSigns(p: Policy, a: seq<Delivery>, b: seq<Delivery>)
    requires Genuine(a) && Genuine(b) && SameDeliveries(a, b)
    ensures SameSigns(p, OpsOf(a), OpsOf(b))
  {
    hide Genuine, SameDeliveries, OpsOf, SameStory;
    forall node ensures SameStory(StoryOf(p, OpsOf(a), node), StoryOf(p, OpsOf(b), node)) {
      SameDeliveriesSameStory(p, a, b, node);
    }
  }

  /** The events observed last earn the same credit, and the same latency was measured
      last. Repeated deliveries do not matter to either. */
  predicate FreshAlike(p: Policy, x: seq<Report>, y: seq<Report>) {
    |x| > 0 && |y| > 0 ==>
      && Credited(p, LastSign(x)) == Credited(p, LastSign(y))
      && LastLatency(x, Unknown) == LastLatency(y, Unknown)
  }

  ghost predicate WholeDeliveries(ds: seq<Delivery>) {
    forall d :: d in ds ==> IsWhole(d.s.createdAt) && WholeLatency(d.hint)
  }

  lemma {:induction false} WholeFeed(ds: seq<Delivery>)
    requires WholeDeliveries(ds)
    ensures WholeOps(OpsOf(ds))
  {
    if |ds| > 0 {
      var rest, d := ds[..|ds| - 1], ds[|ds| - 1];
      assert ds == rest + [d] && d in ds;
      WholeFeed(rest);
      hide Remembered, IsWhole, WholeLatency;
    }
  }

  /** Members that received the same deliveries, each event by the same relays but in any
      order and any number of times, rank alike if and only if, for every viable node, the
      first deliveries ended alike. */
  lemma SameDeliveriesSameRanking(p: Policy, a: seq<Delivery>, b: seq<Delivery>, now: int)
    requires Genuine(a) && Genuine(b) && SameDeliveries(a, b) && WholeDeliveries(a)
    ensures var x, y := BookAfter(p, OpsOf(a)), BookAfter(p, OpsOf(b));
            && MapOk(x.candidates) && MapOk(y.candidates)
            && (Ranked(x, now) == Ranked(y, now) <==>
                forall node :: ViableHere(x, node, now) ==> FreshAlike(p, Fresh(a, node), Fresh(b, node)))
  {
    hide Genuine, SameDeliveries, BookAfter, OpsOf, Fresh, StoryOf, EndAlike, FreshAlike, ViableHere, Ranked, MapOk;
    hide SameSigns, WholeOps, WholeDeliveries;
    SameDeliveriesSameSigns(p, a, b);
    WholeFeed(a);
    WholeSignsSameRanking(p, OpsOf(a), OpsOf(b), now);
    forall node
      ensures EndAlike(p, StoryOf(p, OpsOf(a), node), StoryOf(p, OpsOf(b), node))
              <==> FreshAlike(p, Fresh(a, node), Fresh(b, node))
    {
      FreshDecide(p, a, b, node);
    }
  }

  lemma FreshDecide(p: Policy, a: seq<Delivery>, b: seq<Delivery>, node: string)
    ensures EndAlike(p, StoryOf(p, OpsOf(a), node), StoryOf(p, OpsOf(b), node))
            <==> FreshAlike(p, Fresh(a, node), Fresh(b, node))
  {
    FeedStory(p, a, node);
    FeedStory(p, b, node);
    hide StoryOf, OpsOf, Fresh, LastLatency, Credited;
  }

  lemma {:induction false} NoLatency(heard: seq<Report>)
    requires forall r :: r in heard ==> r.hint.Unknown?
    ensures LastLatency(heard, Unknown) == Unknown
  {
    if |heard| > 0 {
      assert heard[|heard| - 1] in heard;
      NoLatency(heard[..|heard| - 1]);
    }
  }

  lemma {:induction false} FreshWereDelivered(ds: seq<Delivery>, node: string)
    ensures forall r :: r in Fresh(ds, node) ==> exists d :: d in ds && r == ReportOf(d)
  {
    if |ds| > 0 {
      var rest, d := ds[..|ds| - 1], ds[|ds| - 1];
      assert ds == rest + [d];
      FreshWereDelivered(rest, node);
      assert forall e :: e in ds <==> e in rest || e == d;
      hide Remembered, ReportOf;
    }
  }

  /** So in an open network, before any latency is measured, they rank alike without
      condition. */
  lemma OpenNetworksRankAlike(a: seq<Delivery>, b: seq<Delivery>, now: int)
    requires Genuine(a) && Genuine(b) && SameDeliveries(a, b) && WholeDeliveries(a)
    requires forall d :: d in a || d in b ==> d.hint.Unknown?
    ensures var x, y := BookAfter(Open, OpsOf(a)), BookAfter(Open, OpsOf(b));
            MapOk(x.candidates) && MapOk(y.candidates) && Ranked(x, now) == Ranked(y, now)
  {
    hide Genuine, SameDeliveries, BookAfter, OpsOf, Ranked, MapOk, ViableHere, WholeDeliveries;
    SameDeliveriesSameRanking(Open, a, b, now);
    forall node ensures FreshAlike(Open, Fresh(a, node), Fresh(b, node)) {
      FreshWereDelivered(a, node);
      FreshWereDelivered(b, node);
      NoLatency(Fresh(a, node));
      NoLatency(Fresh(b, node));
      hide Fresh, LastLatency;
    }
  }
}
