/** Candidate scoring, the deterministic ranking, and the choice of whom to
    connect to. Scores are real numbers; floating-point noise is not modelled. */
module Discovery {
  import opened Basics
  import opened Ordering

  const JOIN_TTL: int := 300
  const HEARTBEAT_TTL: int := 90
  const INVITE_WEIGHT: real := 40.0
  const FRESHNESS_WEIGHT: real := 25.0
  const HEARTBEAT_WEIGHT: real := 20.0
  const DIVERSITY_WEIGHT: real := 10.0
  const LATENCY_WEIGHT: real := 15.0
  const LATENCY_CEILING_MS: int := 500
  const LATENCY_UNKNOWN: real := 0.5

  datatype Latency = Unknown | Millis(ms: real)

  /** Times in seconds; 0 for never. Times and latencies may come from a peer's table
      and need not be whole numbers. */
  datatype Candidate = Candidate(node: string, pubkey: string, joinAt: real, heartbeatAt: real, relayCount: int,
                                 latency: Latency, inviteMatch: bool, viaPeerTable: bool)

  // ------------------------------------------------------------------ scores

  function Clamp01(x: real): real {
    if x < 0.0 then 0.0 else if x > 1.0 then 1.0 else x
  }

  function Decay(at: real, now: int, ttl: int): real
    requires ttl > 0
  {
    if at == 0.0 then 0.0 else Clamp01(1.0 - (now as real - at) / ttl as real)
  }

  function Speed(latency: Latency): real {
    match latency
    case Unknown => LATENCY_UNKNOWN
    case Millis(ms) => Clamp01(1.0 - ms / LATENCY_CEILING_MS as real)
  }

  function Score(c: Candidate, now: int): real {
    var invite := if c.inviteMatch then INVITE_WEIGHT else 0.0;
    var freshness := FRESHNESS_WEIGHT * Decay(c.joinAt, now, JOIN_TTL);
    var heartbeat := HEARTBEAT_WEIGHT * Decay(c.heartbeatAt, now, HEARTBEAT_TTL);
    var diversity := DIVERSITY_WEIGHT * Clamp01((c.relayCount - 1) as real / 2.0);
    var latency := LATENCY_WEIGHT * Speed(c.latency);
    invite + freshness + heartbeat + diversity + latency
  }

  // ------------------------------------------------------------ whole numbers

  /** All observations of the candidate are whole seconds and milliseconds. */
  predicate Whole(c: Candidate) {
    IsWhole(c.joinAt) && IsWhole(c.heartbeatAt) && (c.latency.Unknown? || IsWhole(c.latency.ms))
  }

  function Clamp(x: int, max: nat): nat {
    if x < 0 then 0 else if x > max then max else x
  }

  function DecayTicks(at: int, now: int, ttl: nat): nat {
    if at == 0 then 0 else Clamp(ttl - (now - at), ttl)
  }

  function SpeedTicks(latency: Latency): nat {
    match latency
    case Unknown => 250
    case Millis(ms) => Clamp(LATENCY_CEILING_MS - ms.Floor, LATENCY_CEILING_MS)
  }

  /** The score of whole observations in units of 1/900. */
  function Units(c: Candidate, now: int): nat {
    (if c.inviteMatch then 36000 else 0)
    + 75 * DecayTicks(c.joinAt.Floor, now, JOIN_TTL) + 200 * DecayTicks(c.heartbeatAt.Floor, now, HEARTBEAT_TTL)
    + 4500 * Clamp(c.relayCount - 1, 2)
    + 27 * SpeedTicks(c.latency)
  }

  lemma SpeedIsFraction(latency: Latency)
    requires latency.Unknown? || IsWhole(latency.ms)
    ensures Speed(latency) * 500.0 == SpeedTicks(latency) as real
  {
  }

  lemma DiversityIsFraction(n: int)
    ensures Clamp01(n as real / 2.0) * 2.0 == Clamp(n, 2) as real
  {
  }

  lemma DecayIsFraction(at: real, now: int, ttl: int)
    requires ttl > 0 && IsWhole(at)
    ensures Decay(at, now, ttl) * ttl as real == DecayTicks(at.Floor, now, ttl) as real
  {
    var x := (now as real - at) / ttl as real;
    assert x * ttl as real == (now - at.Floor) as real;
    assert (1.0 - x) * ttl as real == (ttl - (now - at.Floor)) as real;
    Signs(1.0 - x, ttl as real);
    Signs(x, ttl as real);
  }

  lemma Signs(x: real, y: real)
    requires y > 0.0
    ensures x < 0.0 <==> x * y < 0.0
    ensures x > 0.0 <==> x * y > 0.0
  {
    if x < 0.0 {
      assert -x * y > 0.0;
    }
  }

  /** Whole observations make a score of whole nine-hundredths. */
  lemma ScoreInUnits(c: Candidate, now: int)
    requires Whole(c)
    ensures Score(c, now) * 900.0 == Units(c, now) as real
  {
    DecayIsFraction(c.joinAt, now, JOIN_TTL);
    DecayIsFraction(c.heartbeatAt, now, HEARTBEAT_TTL);
    DiversityIsFraction(c.relayCount - 1);
    SpeedIsFraction(c.latency);
    hide Decay, DecayTicks, Clamp01, Clamp, Speed, SpeedTicks, IsWhole;
  }

  // -------------------------------------------------------------- comparator

  /** `Math.round`: halves go up. */
  function Round(x: real): int {
    (x + 0.5).Floor
  }

  /** What the comparator says about two scored nodes: negative, zero or positive. */
  function Compare(scoreA: real, nodeA: string, scoreB: real, nodeB: string): int {
    var d := Round((scoreB - scoreA) * 1000000.0);
    if d != 0 then d else if StrLess(nodeA, nodeB) then -1 else if StrLess(nodeB, nodeA) then 1 else 0
  }

  function Before(now: int): (Candidate, Candidate) -> bool {
    (a: Candidate, b: Candidate) => Compare(Score(a, now), a.node, Score(b, now), b.node) < 0
  }

  /** The order the design asks for: the higher score first, ties by node id. */
  function Better(now: int): (Candidate, Candidate) -> bool {
    (a: Candidate, b: Candidate) => Ahead(Score(a, now), a.node, Score(b, now), b.node)
  }

  predicate Ahead(scoreA: real, nodeA: string, scoreB: real, nodeB: string) {
    scoreA > scoreB || (scoreA == scoreB && StrLess(nodeA, nodeB))
  }

  /** The two scores are equal, or far enough apart for the rounding. */
  predicate ToldApart(scoreA: real, scoreB: real) {
    scoreA == scoreB || Round((scoreB - scoreA) * 1000000.0) != 0
  }

  /** The comparator decides a pair as the design asks if and only if the scores are
      equal, or their difference does not round to zero, or the ids happen to say what
      the scores say. */
  lemma ComparatorIsExact(scoreA: real, nodeA: string, scoreB: real, nodeB: string)
    ensures var c := Compare(scoreA, nodeA, scoreB, nodeB);
            ((c < 0 <==> Ahead(scoreA, nodeA, scoreB, nodeB)) && (c > 0 <==> Ahead(scoreB, nodeB, scoreA, nodeA)))
            <==> || ToldApart(scoreA, scoreB)
                 || (scoreA > scoreB && StrLess(nodeA, nodeB)) || (scoreB > scoreA && StrLess(nodeB, nodeA))
  {
    StrLessTrichotomy(nodeA, nodeB);
    hide StrLess;
  }

  lemma BetterIsOrder(now: int)
    ensures StrictWeakOrder(Better(now))
  {
    forall a: string, b: string {:trigger StrLess(a, b)}
      ensures (StrLess(a, b) || StrLess(b, a) || a == b) && !(StrLess(a, b) && StrLess(b, a))
    {
      StrLessTrichotomy(a, b);
    }
    forall a, b, c | StrLess(a, b) && StrLess(b, c) ensures StrLess(a, c) {
      StrLessTransitive(a, b, c);
    }
    hide StrLess, Score;
  }

  /** Any two scores among the candidates are told apart. */
  ghost predicate Separated(candidates: seq<Candidate>, now: int) {
    forall x, y :: x in candidates && y in candidates ==> ToldApart(Score(x, now), Score(y, now))
  }

  lemma UnitsToldApart(a: real, b: real, m: int, n: int)
    requires a * 900.0 == m as real && b * 900.0 == n as real
    ensures ToldApart(a, b)
  {
    assert (b - a) * 1000000.0 == (n - m) as real * 10000.0 / 9.0;
  }

  /** Whole observations always are: their scores differ by a nine-hundredth or more. */
  lemma WholeIsSeparated(candidates: seq<Candidate>, now: int)
    requires forall c :: c in candidates ==> Whole(c)
    ensures Separated(candidates, now)
  {
    forall x, y | x in candidates && y in candidates ensures ToldApart(Score(x, now), Score(y, now)) {
      ScoreInUnits(x, now);
      ScoreInUnits(y, now);
      hide Score, Units, ToldApart;
      UnitsToldApart(Score(x, now), Score(y, now), Units(x, now), Units(y, now));
    }
  }

  // ----------------------------------------------------------------- ranking

  function RankCandidates(candidates: seq<Candidate>, now: int): seq<Candidate> {
    Sort(candidates, Before(now))
  }

  ghost predicate DistinctNodes(candidates: seq<Candidate>) {
    forall x, y :: x in candidates && y in candidates && x != y ==> x.node != y.node
  }

  /** Candidates that are told apart are ranked as the design asks. */
  lemma RankedAsAsked(candidates: seq<Candidate>, now: int)
    requires Separated(candidates, now)
    ensures RankCandidates(candidates, now) == Sort(candidates, Better(now))
  {
    forall x, y | x in candidates && y in candidates ensures Before(now)(x, y) == Better(now)(x, y) {
      ComparatorIsExact(Score(x, now), x.node, Score(y, now), y.node);
    }
    hide Before, Better;
    SortAlike(candidates, Before(now), Better(now));
  }

  lemma NodesNeverTie(candidates: seq<Candidate>, now: int)
    requires DistinctNodes(candidates)
    ensures NoTies(candidates, Better(now))
  {
    forall x, y | x in candidates && y in candidates && x != y ensures Better(now)(x, y) || Better(now)(y, x) {
      StrLessTrichotomy(x.node, y.node);
    }
  }

  lemma SeparatedToo(mine: seq<Candidate>, yours: seq<Candidate>, now: int)
    requires multiset(mine) == multiset(yours) && Separated(mine, now)
    ensures Separated(yours, now)
  {
    MultisetMembers(yours, mine);
    hide Score, ToldApart;
  }

  /** Every node that knows the same candidates ranks them the same way, whatever
      order it learned them in; the ranking loses and invents nobody, and no one
      stands behind a node with a lower score. */
  lemma RankingIsDeterministic(mine: seq<Candidate>, yours: seq<Candidate>, now: int)
    requires multiset(mine) == multiset(yours) && DistinctNodes(mine) && Separated(mine, now)
    ensures RankCandidates(mine, now) == RankCandidates(yours, now)
    ensures multiset(RankCandidates(mine, now)) == multiset(mine)
    ensures var r := RankCandidates(mine, now);
            forall i, j :: 0 <= i < j < |r| ==> Score(r[i], now) >= Score(r[j], now)
  {
    SeparatedToo(mine, yours, now);
    RankedAsAsked(mine, now);
    RankedAsAsked(yours, now);
    BetterIsOrder(now);
    NodesNeverTie(mine, now);
    SortIgnoresInputOrder(mine, yours, Better(now));
    SortContents(mine, Better(now));
    SortSorted(mine, Better(now));
    var r := RankCandidates(mine, now);
    hide RankCandidates, Sort, Score, StrLess;
    forall i, j | 0 <= i < j < |r| ensures Score(r[i], now) >= Score(r[j], now) {
      assert !Better(now)(r[j], r[i]);
    }
  }

  lemma BeforeIsAsymmetric(candidates: seq<Candidate>, now: int)
    ensures Asymmetric(candidates, Before(now))
  {
    forall x, y | Before(now)(x, y) ensures !Before(now)(y, x) {
      StrLessTrichotomy(x.node, y.node);
      hide StrLess, Score;
    }
  }

  /** The comparator decides every pair and goes round in no circle. */
  ghost predicate Consistent(candidates: seq<Candidate>, now: int) {
    NoTies(candidates, Before(now)) && NoCircle(candidates, Before(now))
  }

  /** Different nodes are ranked the same way for every order in which they were learned
      if and only if the comparator decides every pair of them and goes round in no circle
      of three. */
  lemma RankingIsFixedIffConsistent(candidates: seq<Candidate>, now: int)
    requires Distinct(candidates)
    ensures (forall other :: multiset(other) == multiset(candidates) ==>
                               RankCandidates(other, now) == RankCandidates(candidates, now))
            <==> Consistent(candidates, now)
  {
    BeforeIsAsymmetric(candidates, now);
    SortsAlikeIffNoCircle(candidates, Before(now));
    hide Before, Sort;
    assert SortsAlike(candidates, Before(now)) <==>
           forall other :: multiset(other) == multiset(candidates) ==>
             RankCandidates(other, now) == RankCandidates(candidates, now) by {
      assert forall s :: RankCandidates(s, now) == Sort(s, Before(now));
    }
  }

  /** The comparator leaves a pair undecided only where the higher score leads by half a
      millionth exactly, which one way round is rounded up and the other way to zero. */
  lemma UndecidedIffHalf(a: Candidate, b: Candidate, now: int)
    requires a.node != b.node
    ensures !Before(now)(a, b) && !Before(now)(b, a) <==>
            var lead := (Score(a, now) - Score(b, now)) * 1000000.0;
            (lead == 0.5 && StrLess(b.node, a.node)) || (lead == -0.5 && StrLess(a.node, b.node))
  {
    StrLessTrichotomy(a.node, b.node);
    hide StrLess, Score;
  }

  /** Scores that are told apart are compared consistently. */
  lemma SeparatedIsConsistent(candidates: seq<Candidate>, now: int)
    requires Distinct(candidates) && DistinctNodes(candidates) && Separated(candidates, now)
    ensures Consistent(candidates, now)
  {
    forall other | multiset(other) == multiset(candidates)
      ensures RankCandidates(other, now) == RankCandidates(candidates, now)
    {
      RankingIsDeterministic(candidates, other, now);
    }
    hide Consistent, RankCandidates, Separated;
    RankingIsFixedIffConsistent(candidates, now);
  }

  /** Worth an attempt: seen alive recently, or introduced recently by a peer. */
  predicate IsViable(c: Candidate, now: int) {
    || (c.viaPeerTable && now as real - c.joinAt <= JOIN_TTL as real)
    || Decay(c.joinAt, now, JOIN_TTL) > 0.0 || Decay(c.heartbeatAt, now, HEARTBEAT_TTL) > 0.0
  }

  /** A candidate is worth an attempt within 300 seconds of its JOIN, within 90 of its
      HEARTBEAT, and, if a peer told of it, up to 300 seconds after the peer saw it. */
  lemma ViableWhen(c: Candidate, now: int)
    ensures IsViable(c, now) <==>
            || (c.joinAt != 0.0 && now as real < c.joinAt + 300.0)
            || (c.heartbeatAt != 0.0 && now as real < c.heartbeatAt + 90.0)
            || (c.viaPeerTable && now as real <= c.joinAt + 300.0)
  {
  }

  // --------------------------------------------------------------- selection

  function Eligible(active: set<string>, skip: string -> bool): string -> bool {
    (id: string) => id !in active && !skip(id)
  }

  /** The first `free` eligible nodes in ranking order. */
  function Targets(ranked: seq<string>, active: set<string>, maxLinks: int, skip: string -> bool): seq<string> {
    var eligible := Filter(ranked, Eligible(active, skip));
    var free := maxLinks - |active|;
    if free <= 0 then [] else if free < |eligible| then eligible[..free] else eligible
  }

  method SelectConnectTargets(ranked: seq<string>, active: set<string>, maxLinks: int, skip: string -> bool)
    returns (out: seq<string>)
    ensures out == Targets(ranked, active, maxLinks, skip)
  {
    var free := maxLinks - |active|;
    if free <= 0 {
      return [];
    }
    var ok := Eligible(active, skip);
    out := [];
    for i := 0 to |ranked|
      invariant |out| <= free && out == Filter(ranked[..i], ok)
    {
      assert ranked[..i + 1] == ranked[..i] + [ranked[i]];
      FilterAppend(ranked[..i], ranked[i], ok);
      if |out| >= free {
        assert ranked == ranked[..i] + ranked[i..];
        FilterConcat(ranked[..i], ranked[i..], ok);
        return;
      }
      if ranked[i] in active {
        continue;
      }
      if skip(ranked[i]) {
        continue;
      }
      out := out + [ranked[i]];
    }
    assert ranked[..|ranked|] == ranked;
  }

  function NodesOf(candidates: seq<Candidate>): seq<string> {
    if |candidates| == 0 then [] else [candidates[0].node] + NodesOf(candidates[1..])
  }

  lemma {:induction false} NodesOfAt(candidates: seq<Candidate>, k: nat)
    requires k < |candidates|
    ensures k < |NodesOf(candidates)| && NodesOf(candidates)[k] == candidates[k].node
  {
    if k > 0 {
      NodesOfAt(candidates[1..], k - 1);
    }
  }

  lemma {:induction false} NodesOfLength(candidates: seq<Candidate>)
    ensures |NodesOf(candidates)| == |candidates|
  {
    if |candidates| > 0 {
      NodesOfLength(candidates[1..]);
    }
  }

  /** Candidates are kept in a map by node id, so a ranking never repeats a node. */
  lemma RankingHasNoRepeats(candidates: seq<Candidate>, now: int)
    requires Distinct(candidates) && DistinctNodes(candidates)
    ensures Distinct(NodesOf(RankCandidates(candidates, now)))
  {
    var ranked := RankCandidates(candidates, now);
    SortDistinct(candidates, Before(now));
    SortContents(candidates, Before(now));
    NodesOfLength(ranked);
    var nodes := NodesOf(ranked);
    forall i, j | 0 <= i < j < |nodes| ensures nodes[i] != nodes[j] {
      NodesOfAt(ranked, i);
      NodesOfAt(ranked, j);
      assert ranked[i] in ranked && ranked[j] in ranked;
    }
  }

  /** Every selected node outranks or equals every eligible node left out, and
      someone is left out only when no slot is free. */
  lemma TargetsAreBest(candidates: seq<Candidate>, now: int, active: set<string>, maxLinks: int, skip: string -> bool,
                       chosen: Candidate, other: Candidate)
    requires Distinct(candidates) && DistinctNodes(candidates) && Separated(candidates, now)
    requires chosen in candidates && other in candidates
    requires var t := Targets(NodesOf(RankCandidates(candidates, now)), active, maxLinks, skip);
             chosen.node in t && other.node !in t && Eligible(active, skip)(other.node)
    ensures Score(chosen, now) >= Score(other, now)
    ensures |Targets(NodesOf(RankCandidates(candidates, now)), active, maxLinks, skip)| == maxLinks - |active|
  {
    var ranked := RankCandidates(candidates, now);
    var nodes, ok := NodesOf(ranked), Eligible(active, skip);
    var eligible := Filter(nodes, ok);
    RankingIsDeterministic(candidates, candidates, now);
    SortContents(candidates, Before(now));
    NodesOfLength(ranked);
    var i := Place(ranked, chosen);
    var j := Place(ranked, other);
    FilterMembers(nodes, ok);
    assert nodes[j] in eligible;
    if j < i {
      RankingHasNoRepeats(candidates, now);
      EarlierStaysEarlier(nodes, ok, j, i, maxLinks - |active|);
    }
  }

  lemma Place(ranked: seq<Candidate>, c: Candidate) returns (i: nat)
    requires c in ranked
    ensures i < |ranked| && ranked[i] == c && i < |NodesOf(ranked)| && NodesOf(ranked)[i] == c.node
  {
    i :| 0 <= i < |ranked| && ranked[i] == c;
    NodesOfAt(ranked, i);
  }

  /** Among the first `free` kept elements, an earlier one is never passed over. */
  lemma {:induction false} EarlierStaysEarlier(s: seq<string>, keep: string -> bool, j: nat, i: nat, free: int)
    requires Distinct(s) && j < i < |s| && keep(s[j]) && 0 < free
    requires var kept := Filter(s, keep); s[i] in (if free < |kept| then kept[..free] else kept)
    ensures var kept := Filter(s, keep); s[j] in (if free < |kept| then kept[..free] else kept)
  {
    var kept := Filter(s, keep);
    assert s == s[..i] + s[i..];
    FilterConcat(s[..i], s[i..], keep);
    FilterMembers(s[..i], keep);
    FilterMembers(s, keep);
    assert s[j] in s[..i];
    var a := Filter(s[..i], keep);
    var k :| 0 <= k < |kept| && kept[k] == s[i] && (free < |kept| ==> k < free);
    forall m | 0 <= m < |a| ensures kept[m] != s[i] {
      assert a[m] in a;
    }
    var l :| 0 <= l < |a| && a[l] == s[j];
    assert kept[l] == s[j];
  }
}
