/** What a candidate's record tells of the node, whatever was observed, sighted, learned
    and restored, and when two members that heard the same rank alike. */
module CandidateHistory {
  import opened Basics
  import opened Ordering
  import opened JsMaps
  import opened Discovery
  import opened Candidates

  // ------------------------------------------------------ the story of a node

  /** What was heard of a node since its last LEAVE: the record made by the last row of a
      peer table, the relays seen by then, the events observed after it, and all relays
      seen. */
  datatype Story = Story(base: Option<Candidate>, before: set<string>, heard: seq<Report>, relays: set<string>)

  const NO_STORY: Story := Story(None, {}, [], {})

  function StoryOf(p: Policy, ops: seq<BookOp>, node: string): Story {
    if |ops| == 0 then NO_STORY else StoryNext(p, StoryOf(p, ops[..|ops| - 1], node), ops[|ops| - 1], node)
  }

  function About(op: BookOp): string {
    match op
    case Observe(r) => r.s.node
    case Sight(node, _) => node
    case Leave(node) => node
    case Learn(row) => row.node
    case Restore(row, _) => row.node
  }

  function StoryNext(p: Policy, story: Story, op: BookOp, node: string): Story {
    if About(op) != node then story
    else match op
      case Observe(r) =>
        story.(heard := story.heard + [r], relays := story.relays + if r.relay == "" then {} else {r.relay})
      case Sight(_, relay) => story.(relays := story.relays + {relay})
      case Leave(_) => NO_STORY
      case Learn(row) => Story(Some(Learned(p, row)), story.relays, [], story.relays)
      case Restore(row, now) => Story(Some(Restored(p, row, now)), story.relays, [], story.relays)
  }

  function SignSet(heard: seq<Report>): set<Sign> {
    set r | r in heard :: r.s
  }

  /** `t` is the latest time of a JOIN (or of a HEARTBEAT), but no earlier than `start`. */
  ghost predicate Latest(signs: set<Sign>, join: bool, start: real, t: real) {
    && t >= start && (forall s :: s in signs && s.isJoin == join ==> s.createdAt <= t)
    && (t == start || exists s :: s in signs && s.isJoin == join && s.createdAt == t)
  }

  /** The last latency that was measured, or `first`. */
  function LastLatency(heard: seq<Report>, first: Latency): Latency {
    if |heard| == 0 then first
    else if heard[|heard| - 1].hint.Unknown? then LastLatency(heard[..|heard| - 1], first)
    else heard[|heard| - 1].hint
  }

  function LastSign(heard: seq<Report>): Sign
    requires |heard| > 0
  {
    heard[|heard| - 1].s
  }

  // What the last table row told.

  function FirstJoin(story: Story): real {
    if story.base.Some? then story.base.value.joinAt else 0.0
  }

  function FirstBeat(story: Story): real {
    if story.base.Some? then story.base.value.heartbeatAt else 0.0
  }

  function FirstLatency(story: Story): Latency {
    if story.base.Some? then story.base.value.latency else Unknown
  }

  /** A record after an event: the latest times, the number of distinct relays that
      delivered anything of the node since its last LEAVE, the credit of the event
      observed last and the latency measured last. */
  ghost predicate TellsSigns(p: Policy, c: Candidate, story: Story, node: string) {
    var heard := story.heard;
    && |heard| > 0 && c.node == node && c.pubkey == LastSign(heard).pubkey && !c.viaPeerTable
    && Latest(SignSet(heard), true, FirstJoin(story), c.joinAt)
    && Latest(SignSet(heard), false, FirstBeat(story), c.heartbeatAt)
    && c.relayCount == |story.relays| && c.latency == LastLatency(heard, FirstLatency(story))
    && c.inviteMatch == Credited(p, LastSign(heard))
  }

  /** In an invite network only a JOIN whose chain starts where ours does earns credit. */
  predicate Credited(p: Policy, s: Sign) {
    p == Open || (p.ourRoot != "" && s.isJoin && s.root == p.ourRoot)
  }

  /** A record of a table row: what the row said, with no relays until a new one delivers
      something. */
  predicate TellsRow(c: Candidate, story: Story) {
    && story.base.Some?
    && c == story.base.value.(relayCount := if story.relays == story.before then 0 else |story.relays|)
  }

  ghost predicate Tells(p: Policy, b: Book, story: Story, node: string) {
    && story.before <= story.relays && RelaysOf(b, node) == story.relays
    && (story.base.Some? ==> story.base.value.viaPeerTable && story.base.value.relayCount == 0)
    && (node in b.candidates.at <==> story.base.Some? || |story.heard| > 0)
    && (node in b.candidates.at ==>
          if |story.heard| > 0 then TellsSigns(p, b.candidates.at[node], story, node)
          else TellsRow(b.candidates.at[node], story))
  }

  lemma SignSetMore(heard: seq<Report>, r: Report, first: Latency)
    ensures SignSet(heard + [r]) == SignSet(heard) + {r.s}
    ensures LastLatency(heard + [r], first) == if r.hint.Unknown? then LastLatency(heard, first) else r.hint
  {
    assert forall x :: x in heard + [r] <==> x in heard || x == r;
    assert (heard + [r])[..|heard|] == heard;
  }

  lemma LatestMore(signs: set<Sign>, s: Sign, join: bool, start: real, t: real)
    requires Latest(signs, join, start, t)
    ensures Latest(signs + {s}, join, start, if s.isJoin == join then Later(t, s.createdAt) else t)
  {
  }

  /** The times and the latency that an event is folded into. */
  ghost predicate PriorTells(prior: JsMap<string, Candidate>, story: Story, node: string) {
    var known := node in prior.at;
    && Latest(SignSet(story.heard), true, FirstJoin(story), if known then prior.at[node].joinAt else 0.0)
    && Latest(SignSet(story.heard), false, FirstBeat(story), if known then prior.at[node].heartbeatAt else 0.0)
    && LastLatency(story.heard, FirstLatency(story)) == if known then prior.at[node].latency else Unknown
  }

  lemma BookTellsPrior(p: Policy, b: Book, story: Story, node: string)
    requires Tells(p, b, story, node)
    ensures PriorTells(b.candidates, story, node)
  {
    assert |story.heard| == 0 ==> SignSet(story.heard) == {};
  }

  lemma RefreshedTells(p: Policy, prior: JsMap<string, Candidate>, story: Story, r: Report, relays: set<string>)
    requires PriorTells(prior, story, r.s.node)
    ensures TellsSigns(p, Refreshed(p, prior, r.s, |relays|, r.hint),
                       story.(heard := story.heard + [r], relays := relays), r.s.node)
  {
    var node, signs := r.s.node, SignSet(story.heard);
    SignSetMore(story.heard, r, FirstLatency(story));
    var known := node in prior.at;
    LatestMore(signs, r.s, true, FirstJoin(story), if known then prior.at[node].joinAt else 0.0);
    LatestMore(signs, r.s, false, FirstBeat(story), if known then prior.at[node].heartbeatAt else 0.0);
    hide Latest, SignSet, LastLatency;
  }

  lemma ObservedTells(p: Policy, b: Book, story: Story, r: Report)
    requires Tells(p, b, story, r.s.node)
    ensures Tells(p, Observed(p, b, r), StoryNext(p, story, Observe(r), r.s.node), r.s.node)
  {
    hide PriorTells, TellsSigns, TellsRow, Refreshed;
    BookTellsPrior(p, b, story, r.s.node);
    RefreshedTells(p, b.candidates, story, r, story.relays + RelayOf(r));
  }

  lemma SightedTells(p: Policy, b: Book, story: Story, node: string, relay: string)
    requires Tells(p, b, story, node)
    ensures Tells(p, Sighted(b, node, relay), StoryNext(p, story, Sight(node, relay), node), node)
  {
    hide Latest, SignSet, LastLatency;
    assert relay in story.relays ==> story.relays + {relay} == story.relays;
  }

  lemma OthersTell(p: Policy, b: Book, op: BookOp, node: string)
    requires About(op) != node
    ensures var c := BookStep(p, b, op);
            && (node in c.candidates.at <==> node in b.candidates.at) && RelaysOf(c, node) == RelaysOf(b, node)
            && (node in b.candidates.at ==> c.candidates.at[node] == b.candidates.at[node])
  {
    hide Refreshed;
  }

  lemma TellsStep(p: Policy, b: Book, op: BookOp, story: Story, node: string)
    requires Tells(p, b, story, node)
    ensures Tells(p, BookStep(p, b, op), StoryNext(p, story, op, node), node)
  {
    if About(op) != node {
      OthersTell(p, b, op, node);
    } else if op.Observe? {
      ObservedTells(p, b, story, op.r);
      hide Tells;
    } else if op.Sight? {
      SightedTells(p, b, story, node, op.relay);
      hide Tells;
    }
    hide TellsSigns, Observed, Sighted;
  }

  /** After any series of operations the book tells of every node what was heard of it
      since its last LEAVE. */
  lemma {:induction false} BookTells(p: Policy, ops: seq<BookOp>, node: string)
    ensures Tells(p, BookAfter(p, ops), StoryOf(p, ops, node), node)
  {
    if |ops| > 0 {
      BookTells(p, ops[..|ops| - 1], node);
      hide Tells, BookStep;
      TellsStep(p, BookAfter(p, ops[..|ops| - 1]), ops[|ops| - 1], StoryOf(p, ops[..|ops| - 1], node), node);
    }
  }

  /** What a peer's table says of a node is believed as the time of its JOIN and of its
      HEARTBEAT; a cached table counts as a JOIN no later than now. Credit for an invite
      comes with neither, and a LEAVE takes everything away. */
  lemma RowsAndLeaves(p: Policy, b: Book, row: Row, now: int)
    ensures var c := BookStep(p, b, Learn(row));
            && c.relays == b.relays && row.node in c.candidates.at
            && c.candidates.at
               == b.candidates.at[row.node := Candidate(row.node, row.pubkey, row.lastSeen, row.lastSeen, 0,
                                                        row.latency, p == Open, true)]
    ensures var c := BookStep(p, b, Restore(row, now));
            && c.relays == b.relays && row.node in c.candidates.at
            && c.candidates.at == b.candidates.at[row.node := c.candidates.at[row.node]]
            && var d := c.candidates.at[row.node];
               && d.joinAt == (if now as real < row.lastSeen then now as real else row.lastSeen)
               && d == Candidate(row.node, row.pubkey, d.joinAt, 0.0, 0, row.latency, p == Open, true)
    ensures var c := BookStep(p, b, Leave(row.node));
            c.candidates.at == b.candidates.at - {row.node} && c.relays == b.relays - {row.node}
  {
  }

  // ----------------------------------------------------- order of observation

  /** A node id belongs to one key. */
  ghost predicate OneKey(signs: set<Sign>) {
    forall s, t :: s in signs && t in signs ==> s.pubkey == t.pubkey
  }

  /** The same last table row, after it the same events, and the same relays. */
  ghost predicate SameStory(x: Story, y: Story) {
    x.base == y.base && SignSet(x.heard) == SignSet(y.heard) && OneKey(SignSet(x.heard)) && x.relays == y.relays
  }

  /** Both members heard the same of every node since its last LEAVE, in whatever order,
      by whichever relay first and however often. */
  ghost predicate SameSigns(p: Policy, a: seq<BookOp>, b: seq<BookOp>) {
    forall node :: SameStory(StoryOf(p, a, node), StoryOf(p, b, node))
  }

  /** The events of the node that were observed last earn the same credit, and the same
      latency was measured last. For a node known by a table row alone: a new relay has
      delivered something of it since in both series, or in neither. */
  predicate EndAlike(p: Policy, x: Story, y: Story) {
    if |x.heard| > 0 && |y.heard| > 0 then
      && Credited(p, LastSign(x.heard)) == Credited(p, LastSign(y.heard))
      && LastLatency(x.heard, FirstLatency(x)) == LastLatency(y.heard, FirstLatency(y))
    else x.base.Some? ==> (x.relays == x.before <==> y.relays == y.before)
  }

  lemma LatestIsUnique(signs: set<Sign>, join: bool, start: real, t: real, u: real)
    requires Latest(signs, join, start, t) && Latest(signs, join, start, u)
    ensures t == u
  {
  }

  lemma LastIsSeen(heard: seq<Report>)
    requires |heard| > 0
    ensures LastSign(heard) in SignSet(heard)
  {
    assert heard[|heard| - 1] in heard;
  }

  /** Two members that heard the same of a node have the same record of it if and only if
      the two series end alike. */
  lemma SameCandidate(p: Policy, a: seq<BookOp>, b: seq<BookOp>, node: string)
    requires SameStory(StoryOf(p, a, node), StoryOf(p, b, node))
    ensures var x, y := BookAfter(p, a).candidates.at, BookAfter(p, b).candidates.at;
            && (node in x <==> node in y)
            && (node in x ==> (x[node] == y[node] <==> EndAlike(p, StoryOf(p, a, node), StoryOf(p, b, node))))
            && (node in x ==> x[node].joinAt == y[node].joinAt && x[node].heartbeatAt == y[node].heartbeatAt
                              && x[node].viaPeerTable == y[node].viaPeerTable)
  {
    BookTells(p, a, node);
    BookTells(p, b, node);
    hide BookAfter, StoryOf;
    TellAlike(p, BookAfter(p, a), BookAfter(p, b), StoryOf(p, a, node), StoryOf(p, b, node), node);
  }

  lemma TellAlike(p: Policy, a: Book, b: Book, x: Story, y: Story, node: string)
    requires Tells(p, a, x, node) && Tells(p, b, y, node) && SameStory(x, y)
    ensures node in a.candidates.at <==> node in b.candidates.at
    ensures node in a.candidates.at ==>
              var c, d := a.candidates.at[node], b.candidates.at[node];
              && (c == d <==> EndAlike(p, x, y))
              && c.joinAt == d.joinAt && c.heartbeatAt == d.heartbeatAt && c.viaPeerTable == d.viaPeerTable
  {
    if |x.heard| > 0 {
      LastIsSeen(x.heard);
    }
    if |y.heard| > 0 {
      LastIsSeen(y.heard);
    }
    assert |x.heard| > 0 <==> |y.heard| > 0 by {
      assert |x.heard| == 0 ==> SignSet(x.heard) == {};
      assert |y.heard| == 0 ==> SignSet(y.heard) == {};
    }
    if node in a.candidates.at {
      if |x.heard| > 0 {
        SignsAlike(p, a.candidates.at[node], b.candidates.at[node], x, y, node);
      } else {
        RowsAlike(a.candidates.at[node], b.candidates.at[node], x, y);
      }
    }
    hide TellsSigns, Credited, LastLatency, SignSet, TellsRow;
  }

  lemma SignsAlike(p: Policy, c: Candidate, d: Candidate, x: Story, y: Story, node: string)
    requires TellsSigns(p, c, x, node) && TellsSigns(p, d, y, node) && SameStory(x, y)
    ensures c == d <==> && Credited(p, LastSign(x.heard)) == Credited(p, LastSign(y.heard))
                        && LastLatency(x.heard, FirstLatency(x)) == LastLatency(y.heard, FirstLatency(y))
    ensures c.joinAt == d.joinAt && c.heartbeatAt == d.heartbeatAt && !c.viaPeerTable && !d.viaPeerTable
  {
    LastIsSeen(x.heard);
    LastIsSeen(y.heard);
    LatestIsUnique(SignSet(x.heard), true, FirstJoin(x), c.joinAt, d.joinAt);
    LatestIsUnique(SignSet(x.heard), false, FirstBeat(x), c.heartbeatAt, d.heartbeatAt);
    hide Latest, Credited, LastLatency, SignSet;
  }

  lemma RowsAlike(c: Candidate, d: Candidate, x: Story, y: Story)
    requires TellsRow(c, x) && TellsRow(d, y) && x.base == y.base && x.relays == y.relays
    requires x.before <= x.relays && y.before <= y.relays
    ensures c == d <==> (x.relays == x.before <==> y.relays == y.before)
    ensures c.joinAt == d.joinAt && c.heartbeatAt == d.heartbeatAt && c.viaPeerTable == d.viaPeerTable
  {
    if |x.relays| == 0 {
      assert x.relays == {};
    }
  }

  // ------------------------------------------------------------------ rankings

  /** Two members that heard the same rank the same candidates in the same order only if,
      for every viable node, the series end alike; and if they do, the ranking is the same
      as long as the comparator is consistent on these candidates. */
  lemma SameSignsSameRanking(p: Policy, a: seq<BookOp>, b: seq<BookOp>, now: int)
    requires SameSigns(p, a, b)
    ensures MapOk(BookAfter(p, a).candidates) && MapOk(BookAfter(p, b).candidates)
    ensures var x, y := BookAfter(p, a), BookAfter(p, b);
            var alike := forall node :: ViableHere(x, node, now) ==>
                           EndAlike(p, StoryOf(p, a, node), StoryOf(p, b, node));
            && (Ranked(x, now) == Ranked(y, now) ==> alike)
            && (alike && Consistent(Viable(x, now), now) ==> Ranked(x, now) == Ranked(y, now))
  {
    var x, y := BookAfter(p, a), BookAfter(p, b);
    RunKeepsFiled(p, a);
    RunKeepsFiled(p, b);
    forall node
      ensures ViableHere(x, node, now) <==> ViableHere(y, node, now)
      ensures ViableHere(x, node, now) ==>
                (x.candidates.at[node] == y.candidates.at[node]
                 <==> EndAlike(p, StoryOf(p, a, node), StoryOf(p, b, node)))
    {
      SameCandidate(p, a, b, node);
    }
    hide BookAfter, SameSigns, EndAlike, IsViable, Consistent, StoryOf;
    SameRankingIffSameRecords(x, y, now);
  }

  lemma SameRankingIffSameRecords(x: Book, y: Book, now: int)
    requires Filed(x) && Filed(y)
    requires forall node :: ViableHere(x, node, now) <==> ViableHere(y, node, now)
    ensures var same := forall node :: ViableHere(x, node, now) ==>
                          node in y.candidates.at && x.candidates.at[node] == y.candidates.at[node];
            && (Ranked(x, now) == Ranked(y, now) ==> same)
            && (same && Consistent(Viable(x, now), now) ==> Ranked(x, now) == Ranked(y, now))
  {
    var v, w := Viable(x, now), Viable(y, now);
    ViableAreKeyed(x, now);
    ViableAreKeyed(y, now);
    SortContents(v, Before(now));
    SortContents(w, Before(now));
    hide Viable, IsViable, Before, MapOk, Consistent;
    if Ranked(x, now) == Ranked(y, now) {
      forall node | ViableHere(x, node, now)
        ensures node in y.candidates.at && x.candidates.at[node] == y.candidates.at[node]
      {
        assert x.candidates.at[node] in v;
        assert x.candidates.at[node] in w;
      }
    }
    if && Consistent(v, now)
       && forall node :: ViableHere(x, node, now) ==>
            node in y.candidates.at && x.candidates.at[node] == y.candidates.at[node] {
      forall c ensures c in v <==> c in w {
        assert ViableHere(x, c.node, now) <==> ViableHere(y, c.node, now);
      }
      SameMembers(v, w);
      RankingIsFixedIffConsistent(v, now);
    }
  }

  predicate WholeLatency(latency: Latency) {
    latency.Unknown? || IsWhole(latency.ms)
  }

  /** Whole seconds and milliseconds only. */
  predicate WholeOp(op: BookOp) {
    match op
    case Observe(r) => IsWhole(r.s.createdAt) && WholeLatency(r.hint)
    case Sight(_, _) => true
    case Leave(_) => true
    case Learn(row) => IsWhole(row.lastSeen) && WholeLatency(row.latency)
    case Restore(row, _) => IsWhole(row.lastSeen) && WholeLatency(row.latency)
  }

  ghost predicate WholeOps(ops: seq<BookOp>) {
    forall i :: 0 <= i < |ops| ==> WholeOp(ops[i])
  }

  ghost predicate WholeStory(story: Story) {
    && (story.base.Some? ==> Whole(story.base.value))
    && forall r :: r in story.heard ==> IsWhole(r.s.createdAt) && WholeLatency(r.hint)
  }

  lemma WholeStep(p: Policy, story: Story, op: BookOp, node: string)
    requires WholeStory(story) && WholeOp(op)
    ensures WholeStory(StoryNext(p, story, op, node))
  {
    assert IsWhole(0.0) && (op.Restore? ==> IsWhole(op.now as real));
  }

  lemma {:induction false} StoriesAreWhole(p: Policy, ops: seq<BookOp>, node: string)
    requires WholeOps(ops)
    ensures WholeStory(StoryOf(p, ops, node))
  {
    if |ops| > 0 {
      StoriesAreWhole(p, ops[..|ops| - 1], node);
      WholeStep(p, StoryOf(p, ops[..|ops| - 1], node), ops[|ops| - 1], node);
      hide WholeStory, StoryNext, WholeOp;
    }
  }

  lemma {:induction false} LastLatencyIsWhole(heard: seq<Report>, first: Latency)
    requires WholeLatency(first) && forall r :: r in heard ==> WholeLatency(r.hint)
    ensures WholeLatency(LastLatency(heard, first))
  {
    if |heard| > 0 {
      assert heard[|heard| - 1] in heard;
      LastLatencyIsWhole(heard[..|heard| - 1], first);
    }
  }

  lemma RecordsAreWhole(p: Policy, ops: seq<BookOp>, node: string)
    requires WholeOps(ops)
    ensures node in BookAfter(p, ops).candidates.at ==> Whole(BookAfter(p, ops).candidates.at[node])
  {
    BookTells(p, ops, node);
    StoriesAreWhole(p, ops, node);
    var story := StoryOf(p, ops, node);
    LastLatencyIsWhole(story.heard, FirstLatency(story));
    hide BookAfter, StoryOf, WholeOps, LastLatency, Credited;
    assert IsWhole(0.0);
  }

  /** With whole numbers, two members that heard the same have the same ranking if and
      only if the series end alike for every viable node. In an open network only
      latencies, and what was sighted since a table row, can differ. */
  lemma WholeSignsSameRanking(p: Policy, a: seq<BookOp>, b: seq<BookOp>, now: int)
    requires SameSigns(p, a, b) && WholeOps(a)
    ensures MapOk(BookAfter(p, a).candidates) && MapOk(BookAfter(p, b).candidates)
    ensures Ranked(BookAfter(p, a), now) == Ranked(BookAfter(p, b), now) <==>
            forall node :: ViableHere(BookAfter(p, a), node, now) ==>
              EndAlike(p, StoryOf(p, a, node), StoryOf(p, b, node))
  {
    var x := BookAfter(p, a);
    SameSignsSameRanking(p, a, b, now);
    RunKeepsFiled(p, a);
    ViableAreKeyed(x, now);
    forall c | c in Viable(x, now) ensures Whole(c) {
      RecordsAreWhole(p, a, c.node);
    }
    hide BookAfter, StoryOf, Viable, ViableHere, EndAlike, SameSigns, WholeOps, Whole, MapOk, Consistent, Separated;
    WholeIsSeparated(Viable(x, now), now);
    SeparatedIsConsistent(Viable(x, now), now);
  }
}
