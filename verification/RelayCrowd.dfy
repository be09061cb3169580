/** A run that takes a membership index beyond its bound. */
module RelayCrowd {
  import opened Basics
  import opened Ordering
  import opened JsMaps
  import opened RelayStore
  import opened RelayInvariant
  import opened RelayRuns

  function Name(i: nat): (name: string)
    ensures |name| == i + 1
  {
    seq(i + 1, _ => 'n')
  }

  /** 2000 JOINs fill the index, then each newcomer expires a second sooner than
      everybody before it. */
  function Expiry(i: nat): int {
    if i < MAX_JOINS_PER_NETWORK then JOIN_TTL else MAX_JOINS_PER_NETWORK + JOIN_TTL - 1 - i
  }

  function Newcomer(i: nat): (e: Event)
    ensures e.kind == JOIN
  {
    Event(Name(i), JOIN, "net", Name(i), 0, Expiry(i), "", "")
  }

  function Crowd(n: nat): seq<Op> {
    if n == 0 then [] else Crowd(n - 1) + [Ingest(Newcomer(n - 1), true, 0)]
  }

  ghost predicate RowsOfCrowd(rows: Joins, n: nat) {
    && MapOk(rows) && |rows.order| == n
    && forall x :: x in rows.at ==> 0 < |x| <= n && rows.at[x] == Expiry(|x| - 1)
  }

  ghost predicate StoreOfCrowd(s: Store, n: nat) {
    && RowsOfCrowd(JoinsOf(s.joins, "net"), n)
    && "net" in s.networks.at && |s.networks.order| == 1
  }

  /** Nobody has to leave for the next newcomer: before the bound there is room, and
      beyond it the newcomer itself would be the one to go. */
  lemma NobodyGoes(rows: Joins, n: nat)
    requires RowsOfCrowd(rows, n) && n < MAX_JOINS_PER_NETWORK + JOIN_TTL - 1
    ensures Joined(rows, Newcomer(n), 0) == Put(rows, Name(n), Expiry(n))
  {
    hide Name;
    var node, v := Name(n), Expiry(n);
    assert node !in rows.at;
    if n >= MAX_JOINS_PER_NETWORK {
      NewcomerIsSoonest(rows, Put(rows, node, v), node, v);
    }
    hide MapOk, Soonest;
  }

  lemma RowsGrow(rows: Joins, n: nat)
    requires RowsOfCrowd(rows, n) && n < MAX_JOINS_PER_NETWORK + JOIN_TTL - 1
    ensures RowsOfCrowd(Joined(rows, Newcomer(n), 0), n + 1)
  {
    hide Joined, Newcomer, Name, Expiry;
    NobodyGoes(rows, n);
    PutOk(rows, Name(n), Expiry(n));
    assert Name(n) !in rows.at;
    hide MapOk;
  }

  lemma StoreGrows(s: Store, n: nat)
    requires StoreOfCrowd(s, n) && n < MAX_JOINS_PER_NETWORK + JOIN_TTL - 1
    ensures StoreOfCrowd(Add(s, Newcomer(n), 0).0, n + 1)
  {
    var e := Newcomer(n);
    RowsGrow(JoinsOf(s.joins, "net"), n);
    hide RowsOfCrowd, Admitted, Joined, Name, Expiry;
    assert Add(s, e, 0).0.joins == WithJoin(Opened(s, "net", 0), e, 0).joins;
  }

  lemma FirstOfCrowd()
    ensures StoreOfCrowd(Add(Empty(), Newcomer(0), 0).0, 1)
  {
    RowsGrow(EmptyMap(), 0);
    hide RowsOfCrowd, Admitted, Joined, Name, Expiry;
    assert Add(Empty(), Newcomer(0), 0).0.joins == WithJoin(Opened(Empty(), "net", 0), Newcomer(0), 0).joins;
  }

  lemma NothingYet()
    ensures StoreAfter([]) == Empty()
  {
  }

  lemma {:induction false} CrowdIsKept(n: nat)
    requires 0 < n < MAX_JOINS_PER_NETWORK + JOIN_TTL
    ensures StoreOfCrowd(StoreAfter(Crowd(n)), n)
  {
    hide StoreAfter, StoreOfCrowd, Add, Newcomer;
    AfterOneMore(Crowd(n - 1), Ingest(Newcomer(n - 1), true, 0));
    if n == 1 {
      FirstOfCrowd();
      NothingYet();
    } else {
      CrowdIsKept(n - 1);
      StoreGrows(StoreAfter(Crowd(n - 1)), n - 1);
    }
  }

  /** 2299 JOINs of different nodes at one time leave 2299 rows in an index meant
      for 2000. */
  lemma IndexOutgrown()
    ensures |JoinsOf(StoreAfter(Crowd(2299)).joins, "net").order| == 2299 > MAX_JOINS_PER_NETWORK
  {
    CrowdIsKept(2299);
    hide StoreAfter, Crowd, MapOk;
  }
}
