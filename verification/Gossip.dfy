/** Flooding on a fixed mesh with reliable links: what is new is forwarded to every
    neighbour but the one it came from. Every flood ends, and ends with equal logs. */
module Gossip {
  import opened Basics
  import opened Ordering
  import opened Crdt
  import opened Conversation
  import opened Replication

  /** A delta travelling on a link. */
  datatype Msg = Msg(from: string, to: string, entries: seq<Entry>)

  /** A delta merged or appended by `at`, still being saved, to be forwarded to
      every neighbour except the one it came from. */
  datatype Pending = Pending(at: string, entries: seq<Entry>, except: Option<string>)

  datatype Net = Net(core: System, flight: multiset<Msg>, pending: multiset<Pending>)

  type Links = map<string, set<string>>

  datatype Move =
    | Speak(u: string, kind: string, data: string, ts: int)
    | Receive(m: Msg)
    | Forward(p: Pending)

  ghost predicate Mesh(links: Links) {
    && (forall u, v :: u in links && v in links[u] ==> v in links && u in links[v])
    && (forall u :: u in links ==> u !in links[u])
  }

  function Targets(links: Links, p: Pending): set<string> {
    if p.at in links then (if p.except.Some? then links[p.at] - {p.except.value} else links[p.at]) else {}
  }

  function Copies(links: Links, p: Pending): set<Msg> {
    set v | v in Targets(links, p) :: Msg(p.at, v, p.entries)
  }

  ghost predicate CanMove(s: Net, move: Move, authentic: Entry -> bool) {
    match move
    case Speak(u, kind, data, ts) =>
      u in s.core.logs && u in s.core.disk && Acceptable(MintedBy(s.core.logs[u], kind, data, ts), authentic)
    case Receive(m) => m in s.flight && Enabled(s.core, Deliver(m.to, m.entries), authentic)
    case Forward(p) => p in s.pending && Enabled(s.core, Persist(p.at), authentic)
                       && forall e :: e in p.entries ==> e in s.core.logs[p.at].entries
  }

  /** What a receiver finds new in a message. */
  function News(log: Log, entries: seq<Entry>, authentic: Entry -> bool): seq<Entry> {
    Added(log, Good(entries, authentic))
  }

  ghost function Moved(s: Net, links: Links, move: Move, authentic: Entry -> bool): Net
    requires CanMove(s, move, authentic)
  {
    match move
    case Speak(u, kind, data, ts) =>
      Net(Apply(s.core, Append(u, kind, data, ts), authentic), s.flight,
          s.pending + multiset{Pending(u, [MintedBy(s.core.logs[u], kind, data, ts)], None)})
    case Receive(m) =>
      var news := News(s.core.logs[m.to], m.entries, authentic);
      Net(Apply(s.core, Deliver(m.to, m.entries), authentic), s.flight - multiset{m},
          if |news| == 0 then s.pending else s.pending + multiset{Pending(m.to, news, Some(m.from))})
    case Forward(p) =>
      var saved := Apply(s.core, Persist(p.at), authentic);
      Net(Apply(saved, Send(p.at, p.entries), authentic),
          s.flight + multiset(Copies(links, p)), s.pending - multiset{p})
  }

  /** A forward sends one copy on every link of its node but the one the news came on, and
      none elsewhere. */
  lemma ForwardSkipsTheSender(s: Net, links: Links, p: Pending, authentic: Entry -> bool, m: Msg)
    requires CanMove(s, Forward(p), authentic)
    ensures var t := Moved(s, links, Forward(p), authentic);
            var sent := m.from == p.at && p.at in links && m.to in links[p.at] && p.except != Some(m.to)
                        && m.entries == p.entries;
            && t.flight[m] == s.flight[m] + (if sent then 1 else 0)
            && t.pending == s.pending - multiset{p}
  {
    assert m in Copies(links, p) <==>
           m.from == p.at && p.at in links && m.to in links[p.at] && p.except != Some(m.to) && m.entries == p.entries;
    hide Apply;
  }

  // -------------------------------------------------------------- invariant

  ghost predicate AllGood(s: Net, authentic: Entry -> bool) {
    forall r, e :: r in s.core.logs && e in s.core.logs[r].entries ==> Acceptable(e, authentic)
  }

  ghost predicate HeldBy(core: System, r: string, entries: seq<Entry>) {
    r in core.logs && forall e :: e in entries ==> e in core.logs[r].entries
  }

  ghost predicate MsgOk(core: System, links: Links, m: Msg) {
    && m.from in links && m.to in links[m.from] && m.to in core.logs && HeldBy(core, m.from, m.entries)
    && |m.entries| <= MAX_ENTRIES_PER_DELTA && forall e :: e in m.entries ==> e in core.wire
  }

  ghost predicate PendingOk(core: System, links: Links, p: Pending) {
    && p.at in links && HeldBy(core, p.at, p.entries) && |p.entries| <= MAX_ENTRIES_PER_DELTA
    && (p.except.Some? ==> HeldBy(core, p.except.value, p.entries))
  }

  /** Nothing in transit exceeds the 512-entry cut, and its sender holds it. */
  ghost predicate TransitOk(s: Net, links: Links) {
    && (forall m :: m in s.flight ==> MsgOk(s.core, links, m))
    && (forall p :: p in s.pending ==> PendingOk(s.core, links, p))
  }

  ghost predicate OnTheWay(s: Net, u: string, v: string, e: Entry) {
    || (exists m :: m in s.flight && m.from == u && m.to == v && e in m.entries)
    || (exists p :: p in s.pending && p.at == u && e in p.entries && p.except != Some(v))
  }

  /** On every link, what one end holds the other holds or is about to be sent. */
  ghost predicate Covered(s: Net, links: Links) {
    forall u, v, e :: u in links && v in links[u] && u in s.core.logs && v in s.core.logs && e in s.core.logs[u].entries
                      ==> e in s.core.logs[v].entries || OnTheWay(s, u, v, e)
  }

  ghost predicate GossipInv(s: Net, links: Links, authentic: Entry -> bool) {
    && Mesh(links) && Inv(s.core) && s.core.logs.Keys == links.Keys
    && AllGood(s, authentic) && TransitOk(s, links) && Covered(s, links)
  }

  ghost predicate Start(s: Net, links: Links) {
    Mesh(links) && Initial(s.core) && s.core.logs.Keys == links.Keys && s.flight == multiset{}
      && s.pending == multiset{}
  }

  lemma StartInv(s: Net, links: Links, authentic: Entry -> bool)
    requires Start(s, links)
    ensures GossipInv(s, links, authentic)
  {
    InitialInv(s.core);
  }

  // ------------------------------------------------------------ preservation

  /** Logs and wire only grow: by `added` at `r`, or not at all. */
  ghost predicate Grows(core: System, core': System, r: string, added: seq<Entry>) {
    && core'.logs.Keys == core.logs.Keys && r in core.logs && core.wire <= core'.wire
    && (forall q :: q in core.logs && q != r ==> core'.logs[q] == core.logs[q])
    && (forall e :: e in core'.logs[r].entries <==> e in core.logs[r].entries || e in added)
  }

  lemma GrowthKeepsTransit(s: Net, t: Net, links: Links, r: string, added: seq<Entry>)
    requires TransitOk(s, links) && Grows(s.core, t.core, r, added)
    requires forall m :: m in t.flight ==> m in s.flight || MsgOk(t.core, links, m)
    requires forall p :: p in t.pending ==> p in s.pending || PendingOk(t.core, links, p)
    ensures TransitOk(t, links)
  {
    forall q, entries | HeldBy(s.core, q, entries) ensures HeldBy(t.core, q, entries) {
    }
  }

  lemma GrowthKeepsCover(s: Net, t: Net, links: Links, r: string, added: seq<Entry>)
    requires Covered(s, links) && Grows(s.core, t.core, r, added)
    requires forall u, v, e ::
        u in links && v in links[u] && u in t.core.logs && v in t.core.logs && OnTheWay(s, u, v, e)
        ==> OnTheWay(t, u, v, e) || e in t.core.logs[v].entries
    requires forall v, e :: r in links && v in links[r] && v in t.core.logs && e in added
                            ==> e in t.core.logs[v].entries || OnTheWay(t, r, v, e)
    ensures Covered(t, links)
  {
    hide OnTheWay;
  }

  lemma GrowthKeepsInv(s: Net, t: Net, links: Links, r: string, added: seq<Entry>, authentic: Entry -> bool)
    requires GossipInv(s, links, authentic) && Inv(t.core) && Grows(s.core, t.core, r, added)
    requires forall e :: e in added ==> Acceptable(e, authentic)
    requires forall m :: m in t.flight ==> m in s.flight || MsgOk(t.core, links, m)
    requires forall p :: p in t.pending ==> p in s.pending || PendingOk(t.core, links, p)
    requires forall u, v, e ::
        u in links && v in links[u] && u in t.core.logs && v in t.core.logs && OnTheWay(s, u, v, e)
        ==> OnTheWay(t, u, v, e) || e in t.core.logs[v].entries
    requires forall v, e :: r in links && v in links[r] && v in t.core.logs && e in added
                            ==> e in t.core.logs[v].entries || OnTheWay(t, r, v, e)
    ensures GossipInv(t, links, authentic)
  {
    hide Inv, MsgOk, PendingOk, OnTheWay, Acceptable;
    assert TransitOk(t, links) by { hide AllGood, Covered; GrowthKeepsTransit(s, t, links, r, added); }
    assert Covered(t, links) by { hide AllGood, TransitOk; GrowthKeepsCover(s, t, links, r, added); }
    assert AllGood(t, authentic) by { hide TransitOk, Covered; }
  }

  lemma LogWf(core: System, r: string)
    requires Inv(core) && r in core.logs
    ensures Wf(core.logs[r]) && core.logs[r].origin == r && r in core.disk
  {
  }

  lemma SpeakEffect(s: Net, links: Links, move: Move, authentic: Entry -> bool)
    requires Inv(s.core) && move.Speak? && CanMove(s, move, authentic)
    ensures var t := Moved(s, links, move, authentic);
            var e := MintedBy(s.core.logs[move.u], move.kind, move.data, move.ts);
            && Inv(t.core) && Grows(s.core, t.core, move.u, [e]) && t.flight == s.flight
            && t.pending == s.pending + multiset{Pending(move.u, [e], None)}
  {
    hide Inv, Wf, MintedBy, Appended;
    AppendKeepsInv(s.core, Append(move.u, move.kind, move.data, move.ts), authentic);
    LogWf(s.core, move.u);
    AppendFacts(s.core.logs[move.u], move.kind, move.data, move.ts);
  }

  lemma SpeakKeepsInv(s: Net, links: Links, move: Move, authentic: Entry -> bool)
    requires GossipInv(s, links, authentic) && move.Speak? && CanMove(s, move, authentic)
    ensures GossipInv(Moved(s, links, move, authentic), links, authentic)
  {
    hide Inv, MintedBy, AllGood, TransitOk, Covered, Acceptable;
    var r := move.u;
    var e := MintedBy(s.core.logs[r], move.kind, move.data, move.ts);
    var t := Moved(s, links, move, authentic);
    var p := Pending(r, [e], None);
    SpeakEffect(s, links, move, authentic);
    hide Moved;
    assert p in t.pending && p.at in links && HeldBy(t.core, r, [e]);
    assert forall u, v, x :: OnTheWay(s, u, v, x) ==> OnTheWay(t, u, v, x);
    GrowthKeepsInv(s, t, links, r, [e], authentic);
  }

  /** All of an honest message passes the receiver's checks, and none is cut. */
  lemma MessageIsGood(s: Net, links: Links, m: Msg, authentic: Entry -> bool)
    requires GossipInv(s, links, authentic) && m in s.flight
    ensures MsgOk(s.core, links, m) && Good(m.entries, authentic) == m.entries
    ensures Enabled(s.core, Deliver(m.to, m.entries), authentic)
  {
    hide Inv, Covered, Acceptable;
    assert MsgOk(s.core, links, m);
    LogWf(s.core, m.to);
    assert forall e :: e in m.entries ==> Acceptable(e, authentic);
    FilterAll(m.entries, (e: Entry) => Acceptable(e, authentic));
  }

  lemma NewsFacts(log: Log, entries: seq<Entry>, authentic: Entry -> bool)
    requires Wf(log) && Good(entries, authentic) == entries
    ensures var news := News(log, entries, authentic);
            && Accepted(log, entries, authentic).entries == log.entries + news
            && (forall e :: e in news ==> e in entries && e !in log.entries) && |news| <= |entries|
            && (forall e :: e in entries && WellNamed(e) ==> e.id in Ids(Accepted(log, entries, authentic).entries))
  {
    hide Good, WellNamed, Wf;
    MergeReportsTheNew(log, entries);
    MergeIsUnion(log, entries);
    forall e | e in News(log, entries, authentic) ensures e !in log.entries {
      assert e.id in Ids(Added(log, entries));
    }
    forall e | e in entries && WellNamed(e) ensures e.id in Ids(Accepted(log, entries, authentic).entries) {
      assert e.id in NamedIds(entries);
    }
  }

  /** An id that is present stands for the entry itself. */
  lemma IdMeansEntry(core: System, r: string, e: Entry)
    requires Inv(core) && r in core.logs && e in core.wire && e.id in Ids(core.logs[r].entries)
    ensures e in core.logs[r].entries
  {
    hide Inv;
    IdsAreUnique(core);
    var x :| x in core.logs[r].entries && x.id == e.id;
    assert Present(core, x) && Present(core, e);
  }

  lemma ReceiveEffect(s: Net, links: Links, move: Move, authentic: Entry -> bool)
    requires GossipInv(s, links, authentic) && move.Receive? && CanMove(s, move, authentic)
    ensures var t := Moved(s, links, move, authentic);
            var news := News(s.core.logs[move.m.to], move.m.entries, authentic);
            && Inv(t.core) && Grows(s.core, t.core, move.m.to, news)
            && (forall e :: e in news ==> e in move.m.entries && e !in s.core.logs[move.m.to].entries)
            && |news| <= |move.m.entries|
            && (forall e :: e in move.m.entries ==> e in t.core.logs[move.m.to].entries)
  {
    hide Inv, Wf, AllGood, TransitOk, Covered, Good, Acceptable, WellNamed;
    var m, t := move.m, Moved(s, links, move, authentic);
    MessageIsGood(s, links, m, authentic);
    DeliverKeepsInv(s.core, Deliver(m.to, m.entries), authentic);
    LogWf(s.core, m.to);
    NewsFacts(s.core.logs[m.to], m.entries, authentic);
    hide News, Accepted;
    forall e | e in m.entries ensures e in t.core.logs[m.to].entries {
      assert Present(s.core, e);
      PresentAtAuthor(s.core, e);
      IdMeansEntry(t.core, m.to, e);
    }
  }

  /** When a message is taken in, everything else travels on. */
  lemma TravelAfterReceipt(s: Net, t: Net, m: Msg)
    requires t.flight == s.flight - multiset{m} && s.pending <= t.pending
    requires m.to in t.core.logs && forall e :: e in m.entries ==> e in t.core.logs[m.to].entries
    ensures forall u, v, e :: OnTheWay(s, u, v, e) && v in t.core.logs ==>
        OnTheWay(t, u, v, e) || e in t.core.logs[v].entries
  {
    forall u, v, e | OnTheWay(s, u, v, e) && v in t.core.logs
      ensures OnTheWay(t, u, v, e) || e in t.core.logs[v].entries
    {
      if p :| p in s.pending && p.at == u && e in p.entries && p.except != Some(v) {
        assert p in t.pending;
      } else {
        var x :| x in s.flight && x.from == u && x.to == v && e in x.entries;
        if x != m {
          assert x in t.flight;
        }
      }
    }
  }

  lemma NewsTravels(t: Net, p: Pending)
    requires |p.entries| > 0 ==> p in t.pending
    ensures forall v, e :: e in p.entries && p.except != Some(v) ==> OnTheWay(t, p.at, v, e)
  {
  }

  lemma ReceiveKeepsInv(s: Net, links: Links, move: Move, authentic: Entry -> bool)
    requires GossipInv(s, links, authentic) && move.Receive? && CanMove(s, move, authentic)
    ensures GossipInv(Moved(s, links, move, authentic), links, authentic)
  {
    hide Inv, Wf, Covered, News, Good, Acceptable, OnTheWay, AllGood, Apply;
    var m, t := move.m, Moved(s, links, move, authentic);
    var news := News(s.core.logs[m.to], m.entries, authentic);
    ReceiveEffect(s, links, move, authentic);
    assert m.to in t.core.logs;
    TravelAfterReceipt(s, t, m);
    NewsTravels(t, Pending(m.to, news, Some(m.from)));
    MessageIsGood(s, links, m, authentic);
    assert t.flight == s.flight - multiset{m};
    assert forall x :: x in t.flight ==> x in s.flight;
    assert forall p :: p in t.pending ==> p in s.pending || p == Pending(m.to, news, Some(m.from));
    hide Moved, TransitOk;
    NewsAcceptable(s, m, news, authentic);
    assert PendingOk(t.core, links, Pending(m.to, news, Some(m.from)));
    hide PendingOk, MsgOk;
    GrowthKeepsInv(s, t, links, m.to, news, authentic);
  }

  lemma NewsAcceptable(s: Net, m: Msg, news: seq<Entry>, authentic: Entry -> bool)
    requires AllGood(s, authentic) && HeldBy(s.core, m.from, m.entries) && forall e :: e in news ==> e in m.entries
    ensures forall e :: e in news ==> Acceptable(e, authentic)
  {
    hide Acceptable;
  }

  lemma ForwardEffect(s: Net, links: Links, move: Move, authentic: Entry -> bool)
    requires GossipInv(s, links, authentic) && move.Forward? && CanMove(s, move, authentic)
    ensures var t := Moved(s, links, move, authentic);
            && Inv(t.core) && Grows(s.core, t.core, move.p.at, [])
            && (forall e :: e in move.p.entries ==> e in t.core.wire)
            && (forall x :: x in t.flight <==> x in s.flight || x in Copies(links, move.p))
            && (forall x :: x in t.pending ==> x in s.pending)
            && (forall x :: x in s.pending && x != move.p ==> x in t.pending)
  {
    hide Inv, Wf, AllGood, TransitOk, Covered, Ordered, Copies;
    var p := move.p;
    PersistKeepsInv(s.core, Persist(p.at), authentic);
    SendKeepsInv(Apply(s.core, Persist(p.at), authentic), Send(p.at, p.entries), authentic);
  }

  lemma CopiesAreOk(core: System, links: Links, p: Pending)
    requires PendingOk(core, links, p) && Mesh(links) && core.logs.Keys == links.Keys
    requires forall e :: e in p.entries ==> e in core.wire
    ensures forall x :: x in Copies(links, p) ==> MsgOk(core, links, x)
  {
  }

  lemma ForwardKeepsInv(s: Net, links: Links, move: Move, authentic: Entry -> bool)
    requires GossipInv(s, links, authentic) && move.Forward? && CanMove(s, move, authentic)
    ensures GossipInv(Moved(s, links, move, authentic), links, authentic)
  {
    hide Inv, Wf, AllGood, Covered, Moved, Acceptable, Copies, OnTheWay, PendingOk, MsgOk;
    var p, t := move.p, Moved(s, links, move, authentic);
    ForwardEffect(s, links, move, authentic);
    assert PendingOk(s.core, links, p);
    hide TransitOk;
    PendingGrows(s.core, t.core, links, p);
    CopiesAreOk(t.core, links, p);
    ForwardKeepsTravel(s, t, links, p);
    GrowthKeepsInv(s, t, links, p.at, [], authentic);
  }

  lemma PendingGrows(core: System, core': System, links: Links, p: Pending)
    requires PendingOk(core, links, p) && Grows(core, core', p.at, [])
    ensures PendingOk(core', links, p)
  {
  }

  lemma ForwardKeepsTravel(s: Net, t: Net, links: Links, p: Pending)
    requires forall x :: x in t.flight <==> x in s.flight || x in Copies(links, p)
    requires forall x :: x in s.pending && x != p ==> x in t.pending
    ensures forall u, v, e :: u in links && v in links[u] && OnTheWay(s, u, v, e) ==> OnTheWay(t, u, v, e)
  {
    forall u, v, e | u in links && v in links[u] && OnTheWay(s, u, v, e) ensures OnTheWay(t, u, v, e) {
      if x :| x in s.flight && x.from == u && x.to == v && e in x.entries {
        assert x in t.flight;
      } else {
        var x :| x in s.pending && x.at == u && e in x.entries && x.except != Some(v);
        if x == p {
          assert v in Targets(links, p);
          assert Msg(u, v, p.entries) in Copies(links, p);
        }
      }
    }
  }

  lemma MoveKeepsInv(s: Net, links: Links, move: Move, authentic: Entry -> bool)
    requires GossipInv(s, links, authentic) && CanMove(s, move, authentic)
    ensures GossipInv(Moved(s, links, move, authentic), links, authentic)
  {
    hide GossipInv, Moved;
    match move
    case Speak(_, _, _, _) => SpeakKeepsInv(s, links, move, authentic);
    case Receive(_) => ReceiveKeepsInv(s, links, move, authentic);
    case Forward(_) => ForwardKeepsInv(s, links, move, authentic);
  }

  ghost predicate Flood(s: Net, links: Links, moves: seq<Move>, authentic: Entry -> bool)
    decreases |moves|
  {
    || |moves| == 0
    || (CanMove(s, moves[0], authentic) && Flood(Moved(s, links, moves[0], authentic), links, moves[1..], authentic))
  }

  ghost function End(s: Net, links: Links, moves: seq<Move>, authentic: Entry -> bool): Net
    requires Flood(s, links, moves, authentic)
    decreases |moves|
  {
    if |moves| == 0 then s else End(Moved(s, links, moves[0], authentic), links, moves[1..], authentic)
  }

  lemma {:induction false} FloodKeepsInv(s: Net, links: Links, moves: seq<Move>, authentic: Entry -> bool)
    requires GossipInv(s, links, authentic) && Flood(s, links, moves, authentic)
    ensures GossipInv(End(s, links, moves, authentic), links, authentic)
    decreases |moves|
  {
    hide GossipInv, Moved;
    if |moves| > 0 {
      MoveKeepsInv(s, links, moves[0], authentic);
      FloodKeepsInv(Moved(s, links, moves[0], authentic), links, moves[1..], authentic);
    }
  }

  // ------------------------------------------------------------ termination

  function Everything(core: System): set<Entry> {
    set r, e | r in core.logs && e in core.logs[r].entries :: e
  }

  /** Who still misses what. */
  function MissingPairs(core: System): set<(string, Entry)> {
    set r, e | r in core.logs && e in Everything(core) && e !in core.logs[r].entries :: (r, e)
  }

  /** The number of moves left without a new message: every missing pair costs a
      receipt, a forward and at most one copy per node. */
  function Work(s: Net, links: Links): nat {
    |MissingPairs(s.core)| * (|links| + 2) + |s.pending| * (|links| + 1) + |s.flight|
  }

  lemma {:induction false} CopiesCardinality(p: Pending, targets: set<string>)
    ensures |set v | v in targets :: Msg(p.at, v, p.entries)| <= |targets|
    decreases targets
  {
    if targets != {} {
      var w :| w in targets;
      CopiesCardinality(p, targets - {w});
      assert (set v | v in targets :: Msg(p.at, v, p.entries))
          == (set v | v in targets - {w} :: Msg(p.at, v, p.entries)) + {Msg(p.at, w, p.entries)};
    }
  }

  lemma FewCopies(links: Links, p: Pending)
    requires Mesh(links)
    ensures |Copies(links, p)| <= |links|
  {
    CopiesCardinality(p, Targets(links, p));
    SubsetSize(Targets(links, p), links.Keys);
  }

  /** Spreading entries that exist somewhere already leaves the union of all logs. */
  lemma SpreadingKeepsEverything(core: System, core': System, r: string, added: seq<Entry>)
    requires Grows(core, core', r, added) && forall e :: e in added ==> e in Everything(core)
    ensures Everything(core') == Everything(core)
    ensures MissingPairs(core') <= MissingPairs(core)
    ensures (exists e :: e in added && e !in core.logs[r].entries) ==> MissingPairs(core') != MissingPairs(core)
  {
    if e :| e in added && e !in core.logs[r].entries {
      assert (r, e) in MissingPairs(core) && (r, e) !in MissingPairs(core');
    }
  }

  lemma ReceiveWorks(s: Net, links: Links, move: Move, authentic: Entry -> bool)
    requires GossipInv(s, links, authentic) && move.Receive? && CanMove(s, move, authentic)
    ensures Work(Moved(s, links, move, authentic), links) < Work(s, links)
  {
    hide Inv, AllGood, TransitOk, Covered, News, Everything, MissingPairs, Apply, Work;
    var m, t := move.m, Moved(s, links, move, authentic);
    var news := News(s.core.logs[m.to], m.entries, authentic);
    ReceiveEffect(s, links, move, authentic);
    MessageIsGood(s, links, m, authentic);
    assert |t.flight| == |s.flight| - 1;
    assert |t.pending| == |s.pending| + if |news| == 0 then 0 else 1;
    hide Moved, Grows;
    HeldIsSomewhere(s.core, m.from, m.entries);
    SpreadingKeepsEverything(s.core, t.core, m.to, news);
    SubsetSize(MissingPairs(t.core), MissingPairs(s.core));
    assert |news| > 0 ==> news[0] in news;
    LessWork(s, t, links);
  }

  lemma HeldIsSomewhere(core: System, r: string, entries: seq<Entry>)
    requires HeldBy(core, r, entries)
    ensures forall e :: e in entries ==> e in Everything(core)
  {
  }

  lemma LessWork(s: Net, t: Net, links: Links)
    requires |t.flight| == |s.flight| - 1 && |MissingPairs(t.core)| <= |MissingPairs(s.core)|
    requires t.pending == s.pending
        || (|t.pending| == |s.pending| + 1 && |MissingPairs(t.core)| < |MissingPairs(s.core)|)
    ensures Work(t, links) < Work(s, links)
  {
    hide MissingPairs;
    var a, b, c := |MissingPairs(t.core)|, |MissingPairs(s.core)|, |links| + 2;
    if a < b {
      MulLess(a, b, c);
      MulLeq(|t.pending|, |s.pending| + 1, |links| + 1);
      assert |t.pending| * (|links| + 1) <= (|s.pending| + 1) * (|links| + 1);
      assert (|s.pending| + 1) * (|links| + 1) == |s.pending| * (|links| + 1) + |links| + 1;
    } else {
      MulLeq(a, b, c);
    }
  }

  lemma MulLeq(a: nat, b: nat, c: nat)
    requires a <= b
    ensures a * c <= b * c
  {
  }

  lemma MulLess(a: nat, b: nat, c: nat)
    requires a < b
    ensures a * c + c <= b * c
  {
    MulLeq(a + 1, b, c);
    assert (a + 1) * c == a * c + c;
  }

  lemma ForwardWorks(s: Net, links: Links, move: Move, authentic: Entry -> bool)
    requires GossipInv(s, links, authentic) && move.Forward? && CanMove(s, move, authentic)
    ensures Work(Moved(s, links, move, authentic), links) < Work(s, links)
  {
    hide Inv, AllGood, TransitOk, Covered, Everything, MissingPairs, Apply, Copies, Targets;
    var t := Moved(s, links, move, authentic);
    ForwardEffect(s, links, move, authentic);
    FewCopies(links, move.p);
    assert |t.flight| == |s.flight| + |Copies(links, move.p)|;
    assert |t.pending| == |s.pending| - 1;
    hide GossipInv, Moved, Grows;
    SpreadingKeepsEverything(s.core, t.core, move.p.at, []);
    SubsetSize(MissingPairs(t.core), MissingPairs(s.core));
    MulLeq(|MissingPairs(t.core)|, |MissingPairs(s.core)|, |links| + 2);
    MulLess(|t.pending|, |s.pending|, |links| + 1);
  }

  ghost predicate Silent(moves: seq<Move>) {
    forall k :: 0 <= k < |moves| ==> !moves[k].Speak?
  }

  /** A flood that nobody adds to is over within `Work` moves. */
  lemma {:induction false} FloodEnds(s: Net, links: Links, moves: seq<Move>, authentic: Entry -> bool)
    requires GossipInv(s, links, authentic) && Flood(s, links, moves, authentic) && Silent(moves)
    ensures |moves| + Work(End(s, links, moves, authentic), links) <= Work(s, links)
    decreases |moves|
  {
    hide GossipInv, Moved, Work;
    if |moves| > 0 {
      var move := moves[0];
      assert !move.Speak?;
      MoveKeepsInv(s, links, move, authentic);
      if move.Receive? {
        ReceiveWorks(s, links, move, authentic);
      } else {
        ForwardWorks(s, links, move, authentic);
      }
      FloodEnds(Moved(s, links, move, authentic), links, moves[1..], authentic);
    }
  }

  // ------------------------------------------------------------- quiescence

  ghost predicate Quiet(s: Net) {
    s.flight == multiset{} && s.pending == multiset{}
  }

  /** Unless somebody speaks, nothing can happen any more. */
  ghost predicate Stuck(s: Net, authentic: Entry -> bool) {
    forall move :: CanMove(s, move, authentic) ==> move.Speak?
  }

  /** Only a quiet net cannot go on by itself. */
  lemma StuckIsQuiet(s: Net, links: Links, authentic: Entry -> bool)
    requires GossipInv(s, links, authentic)
    ensures Quiet(s) <==> Stuck(s, authentic)
  {
    hide Inv, Covered, AllGood;
    if m :| m in s.flight {
      MessageIsGood(s, links, m, authentic);
      assert CanMove(s, Receive(m), authentic);
    } else if p :| p in s.pending {
      assert PendingOk(s.core, links, p);
      LogWf(s.core, p.at);
      assert CanMove(s, Forward(p), authentic);
    }
  }

  ghost predicate Path(links: Links, path: seq<string>) {
    && |path| > 0
    && if |path| == 1 then path[0] in links else
         var last := |path| - 1;
         Path(links, path[..last]) && path[last - 1] in links && path[last] in links[path[last - 1]]
  }

  ghost predicate Connected(links: Links) {
    forall u, v :: u in links && v in links ==>
      exists path :: Path(links, path) && path[0] == u && path[|path| - 1] == v
  }

  lemma {:induction false} QuietAlongPath(s: Net, links: Links, path: seq<string>, e: Entry, authentic: Entry -> bool)
    requires GossipInv(s, links, authentic) && Quiet(s) && Path(links, path)
    requires path[0] in s.core.logs && e in s.core.logs[path[0]].entries
    ensures path[|path| - 1] in s.core.logs && e in s.core.logs[path[|path| - 1]].entries
  {
    hide Inv, AllGood, TransitOk;
    if |path| > 1 {
      QuietAlongPath(s, links, path[..|path| - 1], e, authentic);
      assert !OnTheWay(s, path[|path| - 2], path[|path| - 1], e);
    }
  }

  /** On a connected mesh, a flood that has run out leaves every replica with every
      entry and with the same list. */
  lemma QuietMeansEqual(s: Net, links: Links, authentic: Entry -> bool, u: string, v: string)
    requires GossipInv(s, links, authentic) && Quiet(s) && Connected(links) && u in links && v in links
    ensures Ordered(s.core.logs[u]) == Ordered(s.core.logs[v])
    ensures forall e :: e in Everything(s.core) ==> e in s.core.logs[u].entries
  {
    hide Wf, Inv, AllGood, TransitOk, Covered;
    forall a, b, e | a in links && b in links && e in s.core.logs[a].entries ensures e in s.core.logs[b].entries {
      var path :| Path(links, path) && path[0] == a && path[|path| - 1] == b;
      QuietAlongPath(s, links, path, e, authentic);
    }
    LogWf(s.core, u);
    LogWf(s.core, v);
    SameEntriesSameOrder(s.core.logs[u], s.core.logs[v]);
  }

  ghost predicate AllEqual(core: System, links: Links) {
    forall u, v :: u in links && v in links ==>
      && u in core.logs && v in core.logs && Ordered(core.logs[u]) == Ordered(core.logs[v])
      && forall e :: e in Everything(core) ==> e in core.logs[u].entries
  }

  lemma KeysMatch(s: Net, links: Links, authentic: Entry -> bool)
    requires GossipInv(s, links, authentic)
    ensures s.core.logs.Keys == links.Keys
  {
  }

  lemma StuckMeansEqual(t: Net, links: Links, authentic: Entry -> bool)
    requires GossipInv(t, links, authentic) && Connected(links)
    requires Stuck(t, authentic)
    ensures AllEqual(t.core, links)
  {
    hide GossipInv, CanMove, Everything, Stuck, Connected, Quiet, Ordered;
    StuckIsQuiet(t, links, authentic);
    KeysMatch(t, links, authentic);
    forall u, v | u in links && v in links
      ensures Ordered(t.core.logs[u]) == Ordered(t.core.logs[v])
      ensures forall e :: e in Everything(t.core) ==> e in t.core.logs[u].entries
    {
      QuietMeansEqual(t, links, authentic, u, v);
    }
  }

  /** From any reachable net: however the messages are delivered, once nobody speaks
      the flood runs out within a bounded number of moves, and when nothing can move
      any more all replicas show the same list, holding all that was ever said. */
  lemma FloodConverges(start: Net, links: Links, talk: seq<Move>, rest: seq<Move>, authentic: Entry -> bool)
    requires Start(start, links) && Connected(links) && Flood(start, links, talk, authentic)
    requires Flood(End(start, links, talk, authentic), links, rest, authentic) && Silent(rest)
    ensures var s := End(start, links, talk, authentic);
            var t := End(s, links, rest, authentic);
            && |rest| <= Work(s, links)
            && (Stuck(t, authentic) ==> AllEqual(t.core, links))
  {
    StartInv(start, links, authentic);
    hide GossipInv, Start, CanMove, AllEqual, Work, Stuck;
    FloodKeepsInv(start, links, talk, authentic);
    var s := End(start, links, talk, authentic);
    FloodEnds(s, links, rest, authentic);
    FloodKeepsInv(s, links, rest, authentic);
    var t := End(s, links, rest, authentic);
    if Stuck(t, authentic) {
      StuckMeansEqual(t, links, authentic);
    }
  }
}
