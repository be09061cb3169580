/** How long a JOIN makes its node a member. */
module RelayMembers {
  import opened Basics
  import opened Ordering
  import opened JsMaps
  import opened RelayStore
  import opened RelayInvariant
  import opened RelayEffects
  import opened RelayRuns

  /** A JOIN makes its node a member for as long as it is good, and at most 300 seconds,
      whatever was known of the node before. */
  lemma JoinMakesMember(s: Store, e: Event, now: int, t: int)
    requires StoreInv(s) && e.kind == JOIN && t < e.expiresAt && t < now + 300
    ensures IsMember(Add(s, e, now).0, e.network, e.node, t)
  {
    IndexIsOk(s, e.network);
    AddIndexes(s, e, now);
    JoinedRows(JoinsOf(s.joins, e.network), e, now, e.node);
    hide Add, Joined, MapOk, StoreInv;
  }

  /** The event's node is a member for as long as the event is good, and at most 300 seconds. */
  ghost predicate MemberFor(s: Store, e: Event, now: int) {
    forall t :: t < e.expiresAt && t < now + 300 ==> IsMember(s, e.network, e.node, t)
  }

  lemma JoinMakesMemberFor(s: Store, e: Event, now: int)
    requires StoreInv(s)
    ensures e.kind == JOIN ==> MemberFor(Add(s, e, now).0, e, now)
  {
    hide StoreInv, Add, IsMember;
    forall t | e.kind == JOIN && t < e.expiresAt && t < now + 300
      ensures IsMember(Add(s, e, now).0, e.network, e.node, t)
    {
      JoinMakesMember(s, e, now, t);
    }
  }

  lemma IndexIsOk(s: Store, network: string)
    requires StoreInv(s)
    ensures MapOk(JoinsOf(s.joins, network))
  {
    hide NetworksInv;
  }

  /** The node's row is trimmed, or its network makes room for a new one. */
  ghost predicate Ends(s: Store, op: Op, network: string, node: string) {
    && op.Ingest? && Enters(s, op.e, op.valid, op.now)
    && ((FullFor(s, op.e.network) && Idlest(s, network))
        || (op.e.kind == JOIN && op.e.network == network && Trims(JoinsOf(s.joins, network), op.e, op.now, node)))
  }

  /** Until a membership runs out it ends in exactly these two ways. */
  lemma MemberUnlessEnded(s: Store, op: Op, network: string, node: string, t: int)
    requires StoreInv(s) && IsMember(s, network, node, t) && op.now <= t
    ensures IsMember(Step(s, op), network, node, t) <==> !Ends(s, op, network, node)
  {
    match op
    case Sweep(now) =>
      SweepRowsExactly(s, now, network, node);
      hide StoreInv, Swept;
    case Ingest(e, valid, now) =>
      EntersIfPasses(s, e, valid, now);
      IndexIsOk(s, network);
      if e.network == network {
        AddIndexes(s, e, now);
        JoinedRows(JoinsOf(s.joins, network), e, now, node);
        RowOnlyGrows(JoinsOf(s.joins, network), e, now);
        NotIdle(s, e.network);
      } else {
        AddSparesOthers(s, e, now, network);
      }
      hide StoreInv, Add, Enters, Passes, Idlest, FullFor, Joined, MapOk, RowAfter, Trims;
  }

  lemma RowOnlyGrows(rows: Joins, e: Event, now: int)
    ensures e.node in rows.at ==> rows.at[e.node] <= RowAfter(rows, e, now)
    ensures !Trims(rows, e, now, e.node)
  {
  }

  lemma NotIdle(s: Store, network: string)
    requires StoreInv(s)
    ensures !(FullFor(s, network) && Idlest(s, network))
  {
  }

  /** After an accepted JOIN its node is a member until the JOIN runs out if and only if,
      in between, its row is not trimmed and its network is not displaced. */
  lemma {:induction false} MembershipLasts(ops: seq<Op>, k: nat, m: nat, t: int)
    requires k < m <= |ops| && ops[k].Ingest? && ops[k].valid && ops[k].e.kind == JOIN
    requires t < ops[k].e.expiresAt && t < ops[k].now + 300 && forall i :: k < i < m ==> ops[i].now <= t
    ensures (forall i :: k < i <= m ==> IsMember(StoreAfter(ops[..i]), ops[k].e.network, ops[k].e.node, t))
            <==> forall i :: k < i < m ==> !Ends(StoreAfter(ops[..i]), ops[i], ops[k].e.network, ops[k].e.node)
    decreases m
  {
    hide StoreAfter, StoreInv, IsMember, Ends, Step;
    var e, s := ops[k].e, StoreAfter(ops[..m - 1]);
    AfterOneMore(ops[..m - 1], ops[m - 1]);
    assert ops[..m] == ops[..m - 1] + [ops[m - 1]];
    RunInv(ops[..m - 1]);
    if k == m - 1 {
      JoinEnters(s, ops[k], t);
    } else {
      MembershipLasts(ops, k, m - 1, t);
      if IsMember(s, e.network, e.node, t) {
        MemberUnlessEnded(s, ops[m - 1], e.network, e.node, t);
      }
    }
  }

  lemma JoinEnters(s: Store, op: Op, t: int)
    requires StoreInv(s) && op.Ingest? && op.valid && op.e.kind == JOIN && t < op.e.expiresAt && t < op.now + 300
    ensures IsMember(Step(s, op), op.e.network, op.e.node, t)
  {
    JoinMakesMember(s, op.e, op.now, t);
    hide StoreInv, Add, IsMember;
  }

  /** So a node that renews its JOIN in time is heard: whatever it publishes is accepted
      until the JOIN runs out, unless its row is trimmed, its network displaced, or it has
      256 SIGNALs and INVITEs stored. */
  lemma MembersAreHeard(ops: seq<Op>, k: nat, m: nat)
    requires k < m < |ops| && ops[k].Ingest? && ops[k].valid && ops[k].e.kind == JOIN
    requires ops[m].Ingest? && ops[m].valid && ops[m].e.network == ops[k].e.network && ops[m].e.node == ops[k].e.node
    requires ops[m].now < ops[k].e.expiresAt && ops[m].now < ops[k].now + 300
    requires forall i :: k < i < m ==> ops[i].now <= ops[m].now
    requires forall i :: k < i < m ==> !Ends(StoreAfter(ops[..i]), ops[i], ops[k].e.network, ops[k].e.node)
    ensures Accepted(ops, m) <==> !OneTooMany(StoreAfter(ops[..m]), ops[m].e)
  {
    MembershipLasts(ops, k, m, ops[m].now);
    RunInv(ops[..m]);
    hide StoreAfter, StoreInv, Ends, OneTooMany, Ingested;
    IngestDecides(StoreAfter(ops[..m]), ops[m].e, ops[m].valid, ops[m].now);
  }
}
