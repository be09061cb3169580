/** The candidates that a conversation collects from relay events and peer tables,
    and the priority it hands to the mesh. */
module Candidates {
  import opened Basics
  import opened Ordering
  import opened JsMaps
  import opened Discovery

  /** A verified JOIN or HEARTBEAT; `root` is the first issuer of a JOIN's invite chain,
      empty when there is none. */
  datatype Sign = Sign(node: string, pubkey: string, isJoin: bool, createdAt: real, root: string)

  /** A sign of life, the relay that delivered it first, if known, and the latency then
      known of a link to the node, if any. */
  datatype Report = Report(s: Sign, relay: string, hint: Latency)

  /** A row of a peer table. */
  datatype Row = Row(node: string, pubkey: string, lastSeen: real, latency: Latency)

  /** `ourRoot` is the first issuer of our own chain; open networks have none to match. */
  datatype Policy = Open | Invite(ourRoot: string)

  datatype Book = Book(candidates: JsMap<string, Candidate>, relays: map<string, set<string>>)

  /** `Observe` is an event processed for the first time, `Sight` any delivery of one,
      repeated or not; `Learn` a row of a peer's table, `Restore` one of our own, saved. */
  datatype BookOp =
    | Observe(r: Report)
    | Sight(node: string, relay: string)
    | Leave(node: string)
    | Learn(row: Row)
    | Restore(row: Row, now: int)

  function RelaysOf(b: Book, node: string): set<string> {
    if node in b.relays then b.relays[node] else {}
  }

  function SharesRoot(p: Policy, s: Sign): bool {
    match p
    case Open => true
    case Invite(ourRoot) => ourRoot != "" && s.isJoin && s.root == ourRoot
  }

  function RelayOf(r: Report): set<string> {
    if r.relay != "" then {r.relay} else {}
  }

  /** The candidate record after a sign of life. */
  function Refreshed(p: Policy, prior: JsMap<string, Candidate>, s: Sign, relays: nat, hint: Latency): Candidate {
    var known := s.node in prior.at;
    var joined := if known then prior.at[s.node].joinAt else 0.0;
    var beaten := if known then prior.at[s.node].heartbeatAt else 0.0;
    var latency := if hint.Unknown? && known then prior.at[s.node].latency else hint;
    Candidate(s.node, s.pubkey, if s.isJoin then Later(joined, s.createdAt) else joined,
              if s.isJoin then beaten else Later(beaten, s.createdAt), relays, latency, SharesRoot(p, s), false)
  }

  function Observed(p: Policy, b: Book, r: Report): Book {
    var relays := RelaysOf(b, r.s.node) + RelayOf(r);
    Book(Put(b.candidates, r.s.node, Refreshed(p, b.candidates, r.s, |relays|, r.hint)), b.relays[r.s.node := relays])
  }

  /** A delivery counts its relay, and refreshes the count of a candidate if the relay
      is new. */
  function Sighted(b: Book, node: string, relay: string): Book {
    var relays := RelaysOf(b, node) + {relay};
    var candidates := if node in b.candidates.at && relay !in RelaysOf(b, node)
                      then Put(b.candidates, node, b.candidates.at[node].(relayCount := |relays|)) else b.candidates;
    Book(candidates, b.relays[node := relays])
  }

  function Left(b: Book, node: string): Book {
    Book(Delete(b.candidates, node), b.relays - {node})
  }

  /** The record that a peer table's row makes, whatever stood there. */
  function Introduced(p: Policy, row: Row, joinAt: real, heartbeatAt: real): Candidate {
    Candidate(row.node, row.pubkey, joinAt, heartbeatAt, 0, row.latency, p.Open?, true)
  }

  function Learned(p: Policy, row: Row): Candidate {
    Introduced(p, row, row.lastSeen, row.lastSeen)
  }

  function Restored(p: Policy, row: Row, now: int): Candidate {
    Introduced(p, row, if row.lastSeen < now as real then row.lastSeen else now as real, 0.0)
  }

  function Entered(b: Book, c: Candidate): Book {
    b.(candidates := Put(b.candidates, c.node, c))
  }

  function BookStep(p: Policy, b: Book, op: BookOp): Book {
    match op
    case Observe(r) => Observed(p, b, r)
    case Sight(node, relay) => Sighted(b, node, relay)
    case Leave(node) => Left(b, node)
    case Learn(row) => Entered(b, Learned(p, row))
    case Restore(row, now) => Entered(b, Restored(p, row, now))
  }

  function NewBook(): Book {
    Book(EmptyMap(), map[])
  }

  function BookAfter(p: Policy, ops: seq<BookOp>): Book {
    if |ops| == 0 then NewBook() else BookStep(p, BookAfter(p, ops[..|ops| - 1]), ops[|ops| - 1])
  }

  lemma BookLast(p: Policy, ops: seq<BookOp>, op: BookOp)
    ensures BookAfter(p, ops + [op]) == BookStep(p, BookAfter(p, ops), op)
  {
    assert (ops + [op])[..|ops|] == ops;
  }

  // ------------------------------------------------------------ one per node

  /** Candidates are filed under their own id. */
  ghost predicate Filed(b: Book) {
    MapOk(b.candidates) && forall n :: n in b.candidates.at ==> b.candidates.at[n].node == n
  }

  lemma PutKeepsFiled(b: Book, node: string, c: Candidate, relays: map<string, set<string>>)
    requires Filed(b) && c.node == node
    ensures Filed(Book(Put(b.candidates, node, c), relays))
  {
    PutOk(b.candidates, node, c);
    hide MapOk;
  }

  lemma StepKeepsFiled(p: Policy, b: Book, op: BookOp)
    requires Filed(b)
    ensures Filed(BookStep(p, b, op))
  {
    match op
    case Observe(r) =>
      var relays := RelaysOf(b, r.s.node) + RelayOf(r);
      PutKeepsFiled(b, r.s.node, Refreshed(p, b.candidates, r.s, |relays|, r.hint), b.relays[r.s.node := relays]);
      hide MapOk;
    case Sight(node, relay) =>
      if node in b.candidates.at && relay !in RelaysOf(b, node) {
        var relays := RelaysOf(b, node) + {relay};
        PutKeepsFiled(b, node, b.candidates.at[node].(relayCount := |relays|), b.relays[node := relays]);
      }
      hide MapOk;
    case Leave(node) =>
      DeleteOk(b.candidates, node);
      hide MapOk;
    case Learn(row) =>
      PutKeepsFiled(b, row.node, Learned(p, row), b.relays);
      hide MapOk;
    case Restore(row, now) =>
      PutKeepsFiled(b, row.node, Restored(p, row, now), b.relays);
      hide MapOk;
  }

  lemma {:induction false} RunKeepsFiled(p: Policy, ops: seq<BookOp>)
    ensures Filed(BookAfter(p, ops))
  {
    if |ops| > 0 {
      RunKeepsFiled(p, ops[..|ops| - 1]);
      hide Filed, BookStep;
      StepKeepsFiled(p, BookAfter(p, ops[..|ops| - 1]), ops[|ops| - 1]);
    }
  }

  function ViableAt(now: int): Candidate -> bool {
    (c: Candidate) => IsViable(c, now)
  }

  /** The viable candidates, in the order in which they became known. */
  function Viable(b: Book, now: int): seq<Candidate>
    requires MapOk(b.candidates)
  {
    Filter(Values(b.candidates), ViableAt(now))
  }

  function Ranked(b: Book, now: int): seq<Candidate>
    requires MapOk(b.candidates)
  {
    RankCandidates(Viable(b, now), now)
  }

  lemma ValuesAreDistinct(b: Book)
    requires Filed(b)
    ensures Distinct(Values(b.candidates)) && DistinctNodes(Values(b.candidates))
    ensures forall c :: c in Values(b.candidates) <==> c.node in b.candidates.at && b.candidates.at[c.node] == c
  {
    var values, order := Values(b.candidates), b.candidates.order;
    forall i | 0 <= i < |values| ensures values[i].node == order[i] && values[i] == b.candidates.at[order[i]] {
      assert order[i] in order;
    }
    forall c: Candidate | c.node in b.candidates.at && b.candidates.at[c.node] == c ensures c in values {
      var i :| 0 <= i < |order| && order[i] == c.node;
      assert values[i] == c;
    }
  }

  predicate ViableHere(b: Book, node: string, now: int) {
    node in b.candidates.at && IsViable(b.candidates.at[node], now)
  }

  lemma ViableAreKeyed(b: Book, now: int)
    requires Filed(b)
    ensures Distinct(Viable(b, now)) && DistinctNodes(Viable(b, now))
    ensures forall c :: c in Viable(b, now) <==> ViableHere(b, c.node, now) && b.candidates.at[c.node] == c
  {
    ValuesAreDistinct(b);
    FilterMembers(Values(b.candidates), ViableAt(now));
    FilterDistinct(Values(b.candidates), ViableAt(now));
    hide Filed, MapOk, Values, Filter;
  }

  /** The priority handed to the mesh never repeats a node. */
  lemma PriorityHasNoRepeats(b: Book, now: int)
    requires Filed(b)
    ensures Distinct(NodesOf(Ranked(b, now)))
  {
    ViableAreKeyed(b, now);
    RankingHasNoRepeats(Viable(b, now), now);
  }

  // -------------------------------------------------------------- the object

  /** The cached table, row after row. */
  function AllRestored(p: Policy, b: Book, rows: seq<Row>, now: int): Book {
    if |rows| == 0 then b
    else Entered(AllRestored(p, b, rows[..|rows| - 1], now), Restored(p, rows[|rows| - 1], now))
  }

  /** Restoring a table is restoring its rows in turn. */
  lemma {:induction false} RestoredInTurn(p: Policy, ops: seq<BookOp>, rows: seq<Row>, now: int)
    ensures AllRestored(p, BookAfter(p, ops), rows, now)
            == BookAfter(p, ops + seq(|rows|, i requires 0 <= i < |rows| => BookOp.Restore(rows[i], now)))
  {
    hide BookAfter, Entered, Restored;
    var more := seq(|rows|, i requires 0 <= i < |rows| => BookOp.Restore(rows[i], now));
    if |rows| == 0 {
      assert ops + more == ops;
    } else {
      var last := |rows| - 1;
      RestoredInTurn(p, ops, rows[..last], now);
      var before := ops + seq(last, i requires 0 <= i < last => BookOp.Restore(rows[..last][i], now));
      assert ops + more == before + [BookOp.Restore(rows[last], now)];
      BookLast(p, before, BookOp.Restore(rows[last], now));
    }
  }

  class CandidateTable {
    const policy: Policy
    var candidates: JsMap<string, Candidate>
    var relays: map<string, set<string>>

    ghost function View(): Book
      reads this
    {
      Book(candidates, relays)
    }

    constructor (policy: Policy)
      ensures View() == Book(EmptyMap(), map[]) && Filed(View()) && this.policy == policy
    {
      this.policy, candidates, relays := policy, EmptyMap(), map[];
    }

    method Observe(r: Report)
      requires Filed(View())
      modifies this
      ensures View() == Observed(policy, old(View()), r) && Filed(View())
    {
      StepKeepsFiled(policy, View(), BookOp.Observe(r));
      hide Filed, Refreshed;
      var node, seen := r.s.node, if r.s.node in relays then relays[r.s.node] else {};
      if r.relay != "" {
        seen := seen + {r.relay};
      }
      assert seen == RelaysOf(old(View()), node) + RelayOf(r);
      relays := relays[node := seen];
      candidates := Put(candidates, node, Refreshed(policy, candidates, r.s, |seen|, r.hint));
    }

    method Sight(node: string, relay: string)
      requires Filed(View())
      modifies this
      ensures View() == Sighted(old(View()), node, relay) && Filed(View())
    {
      StepKeepsFiled(policy, View(), BookOp.Sight(node, relay));
      hide Filed;
      var seen := if node in relays then relays[node] else {};
      var before := |seen|;
      assert relay in seen ==> seen + {relay} == seen;
      seen := seen + {relay};
      relays := relays[node := seen];
      if node in candidates.at && |seen| != before {
        candidates := Put(candidates, node, candidates.at[node].(relayCount := |seen|));
      }
    }

    method Leave(node: string)
      requires Filed(View())
      modifies this
      ensures View() == Left(old(View()), node) && Filed(View())
    {
      StepKeepsFiled(policy, View(), BookOp.Leave(node));
      hide Filed;
      candidates := Delete(candidates, node);
      relays := relays - {node};
    }

    method Learn(row: Row)
      requires Filed(View())
      modifies this
      ensures View() == Entered(old(View()), Learned(policy, row)) && Filed(View())
    {
      StepKeepsFiled(policy, View(), BookOp.Learn(row));
      hide Filed;
      candidates := Put(candidates, row.node, Candidate(row.node, row.pubkey, row.lastSeen, row.lastSeen, 0,
                                                        row.latency, policy.Open?, true));
    }

    method Restore(rows: seq<Row>, now: int)
      requires Filed(View())
      modifies this
      ensures View() == AllRestored(policy, old(View()), rows, now) && Filed(View())
    {
      hide Filed;
      for i := 0 to |rows|
        invariant View() == AllRestored(policy, old(View()), rows[..i], now) && Filed(View())
      {
        var row := rows[i];
        assert rows[..i + 1][..i] == rows[..i];
        StepKeepsFiled(policy, View(), BookOp.Restore(row, now));
        var joinAt := if row.lastSeen < now as real then row.lastSeen else now as real;
        candidates := Put(candidates, row.node, Candidate(row.node, row.pubkey, joinAt, 0.0, 0,
                                                          row.latency, policy.Open?, true));
      }
      assert rows[..|rows|] == rows;
    }

    /** What the mesh is told to try, best first. */
    method Priority(now: int) returns (order: seq<string>)
      requires Filed(View())
      ensures order == NodesOf(Ranked(View(), now)) && Distinct(order)
    {
      PriorityHasNoRepeats(View(), now);
      hide Distinct, Filed;
      order := NodesOf(RankCandidates(Filter(Values(candidates), ViableAt(now)), now));
    }
  }
}
