/** Two ways in which the ranking depends on the order of what a member heard. */
module CandidateScenes {
  import opened Basics
  import opened Ordering
  import opened JsMaps
  import opened Discovery
  import opened Candidates
  import opened CandidateFeed

  // ------------------------------------------------------ the credit of an invite

  /** A JOIN or a HEARTBEAT, delivered by one relay. */
  function JoinOf(node: string, pubkey: string, root: string, at: real): Delivery {
    Delivery("j" + node, Sign(node, pubkey, true, at, root), "r", Unknown, false)
  }

  function BeatOf(node: string, pubkey: string, at: real): Delivery {
    Delivery("h" + node, Sign(node, pubkey, false, at, ""), "r", Unknown, false)
  }

  /** The genesis node, whose JOIN needs no chain, and a node invited by it, whose JOIN
      and HEARTBEAT follow in either order. */
  function Scene(root: string, at: real, joinLast: bool): seq<Delivery> {
    var join, beat := JoinOf("b", "kb", root, at), BeatOf("b", "kb", at);
    [JoinOf("a", root, "", at)] + [BeatOf("a", root, at)]
    + [if joinLast then beat else join] + [if joinLast then join else beat]
  }

  function Known(node: string, pubkey: string, at: real, credit: bool): Candidate {
    Candidate(node, pubkey, at, at, 1, Unknown, credit, false)
  }

  /** After its JOIN alone, or its HEARTBEAT alone. */
  function Half(node: string, pubkey: string, at: real, joined: bool, credit: bool): Candidate {
    Candidate(node, pubkey, if joined then at else 0.0, if joined then 0.0 else at, 1, Unknown, credit, false)
  }

  function OneBook(x: Candidate): Book {
    Book(JsMap(map[x.node := x], [x.node]), map[x.node := {"r"}])
  }

  function PairBook(x: Candidate, y: Candidate): Book {
    Book(JsMap(map[x.node := x, y.node := y], [x.node, y.node]), map[x.node := {"r"}, y.node := {"r"}])
  }

  /** An event delivered for the first time has, all in all, the effect of its
      observation. */
  lemma FreshIsObserved(p: Policy, ds: seq<Delivery>, d: Delivery)
    requires !Remembered(ds, d) && d.relay != ""
    ensures BookAfter(p, OpsOf(ds + [d])) == Observed(p, BookAfter(p, OpsOf(ds)), ReportOf(d))
  {
    var b, node := BookAfter(p, OpsOf(ds)), d.s.node;
    assert (ds + [d])[..|ds|] == ds;
    BookLast(p, OpsOf(ds), Sight(node, d.relay));
    BookLast(p, OpsOf(ds) + [Sight(node, d.relay)], Observe(ReportOf(d)));
    hide BookAfter, Remembered;
    SightThenObserve(p, b, ReportOf(d));
  }

  lemma SightThenObserve(p: Policy, b: Book, r: Report)
    requires r.relay != ""
    ensures Observed(p, Sighted(b, r.s.node, r.relay), r) == Observed(p, b, r)
  {
    hide SharesRoot;
    assert RelaysOf(b, r.s.node) + {r.relay} + {r.relay} == RelaysOf(b, r.s.node) + {r.relay};
  }

  /** The first event of a new node, and the second of one that had no credit. */
  lemma FirstEvents(p: Policy, at: real, d: Delivery, node: string, pubkey: string)
    requires at > 0.0 && d == (if d.s.isJoin then JoinOf(node, pubkey, d.s.root, at) else BeatOf(node, pubkey, at))
    ensures Observed(p, NewBook(), ReportOf(d)) == OneBook(Half(node, pubkey, at, d.s.isJoin, SharesRoot(p, d.s)))
    ensures forall x: Candidate :: x.node != node ==>
              Observed(p, OneBook(x), ReportOf(d))
              == PairBook(x, Half(node, pubkey, at, d.s.isJoin, SharesRoot(p, d.s)))
  {
    hide SharesRoot;
  }

  lemma SecondEvents(p: Policy, at: real, d: Delivery, node: string, pubkey: string, credit: bool)
    requires at > 0.0 && d == (if d.s.isJoin then JoinOf(node, pubkey, d.s.root, at) else BeatOf(node, pubkey, at))
    ensures var half, whole := Half(node, pubkey, at, !d.s.isJoin, credit), Known(node, pubkey, at, SharesRoot(p, d.s));
            && Observed(p, OneBook(half), ReportOf(d)) == OneBook(whole)
            && forall x: Candidate :: x.node != node ==>
                 Observed(p, PairBook(x, half), ReportOf(d)) == PairBook(x, whole)
  {
    hide SharesRoot;
    assert {"r"} + {"r"} == {"r"};
  }

  lemma GenesisBook(root: string, at: real)
    requires root != "" && at > 0.0
    ensures BookAfter(Invite(root), OpsOf([JoinOf("a", root, "", at)] + [BeatOf("a", root, at)]))
            == OneBook(Known("a", root, at, false))
  {
    var p, join, beat := Invite(root), JoinOf("a", root, "", at), BeatOf("a", root, at);
    NothingHeard(p);
    assert [] + [join] == [join] && join.id == "ja" && beat.id == "ha";
    FreshIsObserved(p, [], join);
    FreshIsObserved(p, [join], beat);
    FirstEvents(p, at, join, "a", root);
    SecondEvents(p, at, beat, "a", root, false);
    hide BookAfter, OpsOf, Observed, OneBook, PairBook;
  }

  lemma NewIds(root: string, at: real, third: Delivery, fourth: Delivery)
    requires third.id != fourth.id && third.id in {"jb", "hb"} && fourth.id in {"jb", "hb"}
    ensures var genesis := [JoinOf("a", root, "", at)] + [BeatOf("a", root, at)];
            !Remembered(genesis, third) && !Remembered(genesis + [third], fourth)
  {
    assert JoinOf("a", root, "", at).id == "ja" && BeatOf("a", root, at).id == "ha";
    assert "ja" !in {"jb", "hb"} && "ha" !in {"jb", "hb"};
  }

  lemma SceneBook(root: string, at: real, joinLast: bool)
    requires root != "" && at > 0.0
    ensures BookAfter(Invite(root), OpsOf(Scene(root, at, joinLast)))
            == PairBook(Known("a", root, at, false), Known("b", "kb", at, joinLast))
  {
    var p := Invite(root);
    var join, beat := JoinOf("b", "kb", root, at), BeatOf("b", "kb", at);
    var third, fourth := if joinLast then beat else join, if joinLast then join else beat;
    var genesis := [JoinOf("a", root, "", at)] + [BeatOf("a", root, at)];
    assert join.id == "jb" && beat.id == "hb";
    NewIds(root, at, third, fourth);
    assert Scene(root, at, joinLast) == genesis + [third] + [fourth];
    GenesisBook(root, at);
    FirstEvents(p, at, third, "b", "kb");
    SecondEvents(p, at, fourth, "b", "kb", third == join);
    assert SharesRoot(p, join.s) && !SharesRoot(p, beat.s) && third.relay != "" && fourth.relay != "";
    assert "a" != "b" && Known("a", root, at, false).node == "a";
    hide BookAfter, OpsOf, Observed, OneBook, PairBook, Remembered, Scene, SharesRoot, Known, Half;
    FreshIsObserved(p, genesis, third);
    FreshIsObserved(p, genesis + [third], fourth);
  }

  lemma NothingHeard(p: Policy)
    ensures BookAfter(p, OpsOf([])) == NewBook()
  {
  }

  lemma PairRanked(root: string, at: nat, credit: bool)
    requires at > 0
    ensures var b := PairBook(Known("a", root, at as real, false), Known("b", "kb", at as real, credit));
            MapOk(b.candidates) && NodesOf(Ranked(b, at)) == if credit then ["b", "a"] else ["a", "b"]
  {
    var x, y := Known("a", root, at as real, false), Known("b", "kb", at as real, credit);
    var b := PairBook(x, y);
    assert Values(b.candidates) == [x, y];
    assert IsViable(x, at) && IsViable(y, at);
    FilterAll([x, y], ViableAt(at));
    KnownScore("a", root, at, false);
    KnownScore("b", "kb", at, credit);
    assert StrLess("a", "b") && !StrLess("b", "a");
    assert Before(at)(y, x) == credit;
    assert Viable(b, at) == [x, y];
    hide Before, IsViable, Score, StrLess, Viable, Sort;
    SortTwo(x, y, Before(at));
    var r := Ranked(b, at);
    assert r == if credit then [y, x] else [x, y];
    NodesOfTwo(r[0], r[1]);
  }

  lemma NodesOfTwo(x: Candidate, y: Candidate)
    ensures NodesOf([x, y]) == [x.node, y.node]
  {
    assert [x, y][1..] == [y] && [y][1..] == [];
    assert NodesOf([y]) == [y.node];
  }

  lemma KnownScore(node: string, pubkey: string, at: nat, credit: bool)
    requires at > 0
    ensures Score(Known(node, pubkey, at as real, credit), at) == if credit then 92.5 else 52.5
  {
    assert Decay(at as real, at, JOIN_TTL) == 1.0 && Decay(at as real, at, HEARTBEAT_TTL) == 1.0;
  }

  lemma SceneRanked(root: string, at: nat, joinLast: bool)
    requires root != "" && at > 0
    ensures var b := BookAfter(Invite(root), OpsOf(Scene(root, at as real, joinLast)));
            MapOk(b.candidates) && NodesOf(Ranked(b, at)) == if joinLast then ["b", "a"] else ["a", "b"]
  {
    SceneBook(root, at as real, joinLast);
    PairRanked(root, at, joinLast);
    hide BookAfter, OpsOf, Scene, RankCandidates, NodesOf;
  }

  lemma SceneMembers(root: string, at: real, joinLast: bool, d: Delivery)
    ensures d in Scene(root, at, joinLast) <==>
            d == JoinOf("a", root, "", at) || d == BeatOf("a", root, at)
            || d == JoinOf("b", "kb", root, at) || d == BeatOf("b", "kb", at)
  {
    hide JoinOf, BeatOf;
  }

  lemma SameScene(root: string, at: real)
    ensures SameDeliveries(Scene(root, at, true), Scene(root, at, false))
  {
    var a, b := Scene(root, at, true), Scene(root, at, false);
    forall d ensures d in a <==> d in b {
      SceneMembers(root, at, true, d);
      SceneMembers(root, at, false, d);
    }
    hide Scene;
  }

  /** In an invite network a HEARTBEAT, which carries no chain, takes away the credit that
      the JOIN's chain had earned: of two members that received the same deliveries, the one
      that received the JOIN last puts the invited node first, the other puts it second. */
  lemma HeartbeatForgetsInvite(root: string, at: nat)
    requires root != "" && at > 0
    ensures var joinLast, beatLast := Scene(root, at as real, true), Scene(root, at as real, false);
            var x, y := BookAfter(Invite(root), OpsOf(joinLast)), BookAfter(Invite(root), OpsOf(beatLast));
            && SameDeliveries(joinLast, beatLast)
            && MapOk(x.candidates) && MapOk(y.candidates)
            && NodesOf(Ranked(x, at)) == ["b", "a"] && NodesOf(Ranked(y, at)) == ["a", "b"]
  {
    SceneRanked(root, at, true);
    SceneRanked(root, at, false);
    SameScene(root, at as real);
    hide BookAfter, OpsOf, Scene, MapOk, Ranked, NodesOf, SameDeliveries;
  }

  // ------------------------------------------------------- fractional latencies

  /** What a peer's table says of a node just seen alive. */
  function RowOf(node: string, now: int, ms: real): Row {
    Row(node, "k" + node, now as real, Millis(ms))
  }

  function Base(p: Policy, now: int): real {
    (if p.Open? then 40.0 else 0.0) + (if now == 0 then 0.0 else 45.0)
  }

  lemma RowScore(p: Policy, node: string, now: int, ms: real)
    requires 0.0 <= ms <= 500.0
    ensures var c := Learned(p, RowOf(node, now, ms));
            IsViable(c, now) && Score(c, now) == Base(p, now) + 15.0 - 0.03 * ms
  {
  }

  lemma LearnedThree(p: Policy, x: Row, y: Row, z: Row)
    requires x.node != y.node && y.node != z.node && z.node != x.node
    ensures var b := BookAfter(p, [Learn(x), Learn(y), Learn(z)]);
            MapOk(b.candidates) && Values(b.candidates) == [Learned(p, x), Learned(p, y), Learned(p, z)]
  {
    BookLast(p, [Learn(x), Learn(y)], Learn(z));
    BookLast(p, [Learn(x)], Learn(y));
    BookLast(p, [], Learn(x));
    assert [Learn(x), Learn(y)] + [Learn(z)] == [Learn(x), Learn(y), Learn(z)];
    assert [Learn(x)] + [Learn(y)] == [Learn(x), Learn(y)] && [] + [Learn(x)] == [Learn(x)];
    var b := BookAfter(p, [Learn(x), Learn(y), Learn(z)]);
    hide BookAfter, Learned;
    assert b.candidates.order == [x.node, y.node, z.node];
    assert Values(b.candidates) == [Learned(p, x), Learned(p, y), Learned(p, z)];
  }

  lemma RankedThree(p: Policy, x: Row, y: Row, z: Row, now: int)
    requires x.node != y.node && y.node != z.node && z.node != x.node
    requires forall r :: r in [x, y, z] ==> IsViable(Learned(p, r), now)
    requires var c := (r: Row) => Learned(p, r); !Before(now)(c(y), c(x)) && !Before(now)(c(z), c(y))
    ensures var b := BookAfter(p, [Learn(x), Learn(y), Learn(z)]);
            MapOk(b.candidates) && Ranked(b, now) == [Learned(p, x), Learned(p, y), Learned(p, z)]
  {
    LearnedThree(p, x, y, z);
    assert x in [x, y, z] && y in [x, y, z] && z in [x, y, z];
    hide BookAfter, Learned, IsViable, Before, Sort;
    FilterAll([Learned(p, x), Learned(p, y), Learned(p, z)], ViableAt(now));
    SortThree(Learned(p, x), Learned(p, y), Learned(p, z), Before(now));
  }

  /** Three peers with fractional latencies, learned from a peer's table: the comparator
      puts them in a circle, and whoever was learned first is tried first. */
  lemma FractionsCanBreakTheOrder(p: Policy, now: int)
    ensures var x, y, z := RowOf("a", now, 100.0 + 2.0 / 75000.0), RowOf("b", now, 100.0 + 1.0 / 75000.0),
                           RowOf("c", now, 100.0);
            var b, c := BookAfter(p, [Learn(x), Learn(y), Learn(z)]), BookAfter(p, [Learn(z), Learn(x), Learn(y)]);
            && Before(now)(Learned(p, x), Learned(p, y)) && Before(now)(Learned(p, y), Learned(p, z))
            && Before(now)(Learned(p, z), Learned(p, x))
            && MapOk(b.candidates) && MapOk(c.candidates)
            && Ranked(b, now) == [Learned(p, x), Learned(p, y), Learned(p, z)]
            && Ranked(c, now) == [Learned(p, z), Learned(p, x), Learned(p, y)]
  {
    var x, y, z := RowOf("a", now, 100.0 + 2.0 / 75000.0), RowOf("b", now, 100.0 + 1.0 / 75000.0),
                   RowOf("c", now, 100.0);
    RowScore(p, "a", now, x.latency.ms);
    RowScore(p, "b", now, y.latency.ms);
    RowScore(p, "c", now, z.latency.ms);
    assert StrLess("a", "b") && StrLess("b", "c") && StrLess("a", "c");
    assert !StrLess("b", "a") && !StrLess("c", "b") && !StrLess("c", "a");
    var a, b, c := Learned(p, x), Learned(p, y), Learned(p, z);
    assert a.node == "a" && b.node == "b" && c.node == "c";
    hide Score, StrLess, Learned, IsViable, Base;
    assert Before(now)(a, b) && Before(now)(b, c) && Before(now)(c, a);
    assert !Before(now)(b, a) && !Before(now)(c, b) && !Before(now)(a, c);
    hide Before;
    RankedThree(p, x, y, z, now);
    RankedThree(p, z, x, y, now);
  }
}
