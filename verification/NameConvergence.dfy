/** When replicas of the name service agree: the exact condition under expiry, and
    how often a name can be won. */
module NameConvergence {
  import opened Basics
  import opened NameService

  ghost predicate Offered(ops: seq<Op>, r: Record) {
    exists i :: 0 <= i < |ops| && ops[i].Merge? && ops[i].r == r
  }

  predicate Contends(network: string, signed: Record -> bool, name: string, r: Record) {
    Admissible(network, signed, r) && r.name == name
  }

  ghost predicate By(ops: seq<Op>, t: int) {
    forall i :: 0 <= i < |ops| ==> ops[i].now <= t
  }

  /** Nothing offered that contends for the name is newer than `m`. */
  ghost predicate NoneNewer(network: string, signed: Record -> bool, ops: seq<Op>, m: Record) {
    forall r :: Offered(ops, r) && Contends(network, signed, m.name, r) ==> !Older(m, r)
  }

  lemma OfferedMore(rest: seq<Op>, op: Op, r: Record)
    ensures Offered(rest + [op], r) <==> Offered(rest, r) || (op.Merge? && op.r == r)
  {
    var ops := rest + [op];
    if Offered(rest, r) {
      var i :| 0 <= i < |rest| && rest[i].Merge? && rest[i].r == r;
      assert ops[i].r == r;
    }
    if op.Merge? && op.r == r {
      assert ops[|rest|].r == r;
    }
    if Offered(ops, r) {
      var i :| 0 <= i < |ops| && ops[i].Merge? && ops[i].r == r;
      assert i < |rest| ==> rest[i].r == r;
    }
  }

  /** What is stored under a name was offered for it. */
  lemma {:induction false} StoredWasOffered(network: string, signed: Record -> bool, ops: seq<Op>, name: string)
    ensures var recs := After(network, signed, ops);
            name in recs ==> Offered(ops, recs[name]) && Contends(network, signed, name, recs[name])
  {
    if |ops| > 0 {
      var rest, op := ops[..|ops| - 1], ops[|ops| - 1];
      assert ops == rest + [op];
      StoredWasOffered(network, signed, rest, name);
      hide Admissible, Offered;
      var recs := After(network, signed, ops);
      if name in recs {
        OfferedMore(rest, op, recs[name]);
      }
    }
  }

  /** A record that never expires in time and has no newer rival is held from the
      moment it is offered, whatever else is merged, resolved or listed. */
  lemma {:induction false} NewestIsHeld(network: string, signed: Record -> bool, ops: seq<Op>, m: Record, t: int)
    requires Covers(signed) && By(ops, t) && !IsExpired(m, t) && Admissible(network, signed, m)
    requires NoneNewer(network, signed, ops, m) && Offered(ops, m)
    ensures At(After(network, signed, ops), m.name) == Some(m)
  {
    var rest, op := ops[..|ops| - 1], ops[|ops| - 1];
    assert ops == rest + [op];
    var before := After(network, signed, rest);
    AfterIsFiled(network, signed, rest);
    StoredWasOffered(network, signed, rest, m.name);
    forall r | Offered(rest, r) ensures Offered(ops, r) {
      OfferedMore(rest, op, r);
    }
    OfferedMore(rest, op, m);
    if Offered(rest, m) {
      NewestIsHeld(network, signed, rest, m, t);
    }
    assert m.name in before ==> !Older(m, before[m.name]);
    assert op.Merge? ==> Offered(ops, op.r) by {
      if op.Merge? {
        OfferedMore(rest, op, op.r);
      }
    }
    HeldStep(network, signed, before, op, m, t, Offered(rest, m));
  }

  lemma HeldStep(network: string, signed: Record -> bool, before: Records, op: Op, m: Record, t: int, held: bool)
    requires Covers(signed) && Filed(before) && op.now <= t && !IsExpired(m, t) && Admissible(network, signed, m)
    requires if held then At(before, m.name) == Some(m) else op.Merge? && op.r == m
    requires m.name in before ==> signed(before[m.name]) && !Older(m, before[m.name])
    requires op.Merge? && Contends(network, signed, m.name, op.r) ==> !Older(m, op.r)
    ensures At(Step(network, signed, before, op), m.name) == Some(m)
  {
    hide Filed, Admissible, IsValidRevocation;
    assert signed(m) by {
      SignedIfAdmissible(network, signed, m);
    }
    if m.name in before {
      OlderIsOrder(m, before[m.name], m);
    }
    if op.Merge? && Admissible(network, signed, op.r) {
      SignedIfAdmissible(network, signed, op.r);
      OlderIsOrder(op.r, m, m);
    }
    KeysAreNames(before);
    hide Older, Covers;
  }

  lemma SignedIfAdmissible(network: string, signed: Record -> bool, r: Record)
    requires Admissible(network, signed, r)
    ensures signed(r)
  {
  }

  lemma KeysAreNames(recs: Records)
    requires Filed(recs)
    ensures forall n :: n in recs ==> recs[n].name == n
  {
  }

  // -------------------------------------------------- agreement under expiry

  /** A series of operations in time order by `t` that offers exactly the records. */
  ghost predicate Schedule(ops: seq<Op>, records: seq<Record>, t: int) {
    InTimeOrder(ops, t) && forall r :: Offered(ops, r) <==> r in records
  }

  /** Every two replicas that were offered these records, at whatever times by `t`,
      show the same unexpired record under the name at `t`. */
  ghost predicate AllAgree(network: string, signed: Record -> bool, records: seq<Record>, name: string, t: int) {
    forall a, b :: Schedule(a, records, t) && Schedule(b, records, t) ==>
      Unexpired(After(network, signed, a), name, t) == Unexpired(After(network, signed, b), name, t)
  }

  ghost predicate IsNewest(network: string, signed: Record -> bool, records: seq<Record>, name: string, m: Record) {
    && m in records && Contends(network, signed, name, m)
    && forall r :: r in records && Contends(network, signed, name, r) ==> !Older(m, r)
  }

  lemma {:induction false} NewestExists(network: string, signed: Record -> bool, records: seq<Record>, name: string)
    returns (m: Record)
    requires Covers(signed) && exists r :: r in records && Contends(network, signed, name, r)
    ensures IsNewest(network, signed, records, name, m)
  {
    var rest, last := records[..|records| - 1], records[|records| - 1];
    assert records == rest + [last];
    assert forall r :: r in records <==> r in rest || r == last;
    OlderIsOrder(last, last, last);
    if exists r :: r in rest && Contends(network, signed, name, r) {
      m := NewestExists(network, signed, rest, name);
      if Contends(network, signed, name, last) {
        OlderIsOrder(m, last, m);
        if Older(m, last) {
          forall r | r in rest && Contends(network, signed, name, r) ensures !Older(last, r) {
            OlderIsOrder(m, last, r);
          }
          m := last;
        }
      }
    } else {
      m := last;
    }
    hide Older, Contends;
  }

  lemma NewestIsUnique(network: string, signed: Record -> bool, records: seq<Record>, name: string, m: Record,
                       n: Record)
    requires Covers(signed)
    requires IsNewest(network, signed, records, name, m) && IsNewest(network, signed, records, name, n)
    ensures m == n
  {
    OlderIsOrder(m, n, m);
  }

  /** What decides agreement: the newest record is unexpired, or everything is. */
  ghost predicate NewestDecides(network: string, signed: Record -> bool, records: seq<Record>, name: string, t: int) {
    || (forall r :: r in records && Contends(network, signed, name, r) ==> IsExpired(r, t))
    || (exists m :: IsNewest(network, signed, records, name, m) && !IsExpired(m, t))
  }

  /** A schedule that offers everything at one moment. */
  function AtOnce(records: seq<Record>, now: int): (ops: seq<Op>)
    ensures |ops| == |records| && forall i :: 0 <= i < |ops| ==> ops[i] == Merge(records[i], now)
  {
    seq(|records|, i requires 0 <= i < |records| => Merge(records[i], now))
  }

  lemma AtOnceIsSchedule(records: seq<Record>, now: int, t: int)
    requires now <= t
    ensures Schedule(AtOnce(records, now), records, t)
  {
    var ops := AtOnce(records, now);
    forall r ensures Offered(ops, r) <==> r in records {
      if r in records {
        var i :| 0 <= i < |records| && records[i] == r;
        assert ops[i].r == r;
      }
    }
  }

  lemma {:induction false} AliveIsTaken(network: string, signed: Record -> bool, records: seq<Record>, name: string,
                                        now: int, r: Record)
    requires r in records && Contends(network, signed, name, r) && !IsExpired(r, now)
    ensures Unexpired(After(network, signed, AtOnce(records, now)), name, now).Some?
  {
    var rest, last := records[..|records| - 1], records[|records| - 1];
    assert records == rest + [last];
    assert AtOnce(records, now)[..|records| - 1] == AtOnce(rest, now);
    if r in rest {
      AliveIsTaken(network, signed, rest, name, now, r);
    }
    hide Admissible, AtOnce;
  }

  /** Agreement, decided by the newest record alone: if it is unexpired every replica
      shows it, and if everything is expired every replica shows nothing. */
  lemma DecidedIsShown(network: string, signed: Record -> bool, records: seq<Record>, name: string, t: int,
                       ops: seq<Op>)
    requires Covers(signed) && Schedule(ops, records, t) && NewestDecides(network, signed, records, name, t)
    ensures var shown := Unexpired(After(network, signed, ops), name, t);
            if shown.Some? then IsNewest(network, signed, records, name, shown.value)
            else forall r :: r in records && Contends(network, signed, name, r) ==> IsExpired(r, t)
  {
    StoredWasOffered(network, signed, ops, name);
    if m :| IsNewest(network, signed, records, name, m) && !IsExpired(m, t) {
      assert Offered(ops, m) && NoneNewer(network, signed, ops, m);
      NewestIsHeld(network, signed, ops, m, t);
    }
    hide After, Older, Admissible;
  }

  /** For every name and time: all replicas offered the same records agree if and only
      if the newest of them is unexpired, or all of them are expired. */
  lemma AgreeIffNewestDecides(network: string, signed: Record -> bool, records: seq<Record>, name: string, t: int)
    requires Covers(signed)
    ensures AllAgree(network, signed, records, name, t) <==> NewestDecides(network, signed, records, name, t)
  {
    if NewestDecides(network, signed, records, name, t) {
      forall a, b | Schedule(a, records, t) && Schedule(b, records, t)
        ensures Unexpired(After(network, signed, a), name, t) == Unexpired(After(network, signed, b), name, t)
      {
        ShownAlike(network, signed, records, name, t, a, b);
      }
    } else {
      Disagreement(network, signed, records, name, t);
    }
    hide After, Schedule, Unexpired;
  }

  lemma ShownAlike(network: string, signed: Record -> bool, records: seq<Record>, name: string, t: int,
                   a: seq<Op>, b: seq<Op>)
    requires Covers(signed) && NewestDecides(network, signed, records, name, t)
    requires Schedule(a, records, t) && Schedule(b, records, t)
    ensures Unexpired(After(network, signed, a), name, t) == Unexpired(After(network, signed, b), name, t)
  {
    DecidedIsShown(network, signed, records, name, t, a);
    DecidedIsShown(network, signed, records, name, t, b);
    var x, y := Unexpired(After(network, signed, a), name, t), Unexpired(After(network, signed, b), name, t);
    assert x.Some? ==> !IsExpired(x.value, t);
    assert y.Some? ==> !IsExpired(y.value, t);
    hide After, Unexpired, Covers, Schedule, NewestDecides;
    if x.Some? && y.Some? {
      NewestIsUnique(network, signed, records, name, x.value, y.value);
    }
  }

  /** If the newest record has expired and another has not, it matters whether the
      newest came in time to replace the other. */
  lemma Disagreement(network: string, signed: Record -> bool, records: seq<Record>, name: string, t: int)
    requires Covers(signed) && !NewestDecides(network, signed, records, name, t)
    ensures exists early, late :: Schedule(early, records, t) && Schedule(late, records, t)
              && Unexpired(After(network, signed, early), name, t) == None
              && Unexpired(After(network, signed, late), name, t) != None
  {
    var r :| r in records && Contends(network, signed, name, r) && !IsExpired(r, t);
    var m := NewestExists(network, signed, records, name);
    var now := m.updatedAt + m.ttl - 1;
    var early, late := AtOnce(records, now), AtOnce(records, t);
    AtOnceIsSchedule(records, now, t);
    AtOnceIsSchedule(records, t, t);
    AtOnceIsSchedule(records, now, now);
    NewestIsHeld(network, signed, early, m, now);
    AliveIsTaken(network, signed, records, name, t, r);
    assert Unexpired(After(network, signed, early), name, t) == None;
    hide After, Schedule;
  }

  /** Agreement at every time: no record may outlive the newest one. */
  lemma AgreeAlwaysIffNewestOutlives(network: string, signed: Record -> bool, records: seq<Record>, name: string)
    requires Covers(signed)
    ensures (forall t :: AllAgree(network, signed, records, name, t)) <==>
            (forall r, m :: r in records && Contends(network, signed, name, r)
                            && IsNewest(network, signed, records, name, m)
                            ==> r.updatedAt + r.ttl <= m.updatedAt + m.ttl)
  {
    forall t ensures AllAgree(network, signed, records, name, t) <==> NewestDecides(network, signed, records, name, t) {
      AgreeIffNewestDecides(network, signed, records, name, t);
    }
    hide AllAgree, Contends;
    if forall t :: AllAgree(network, signed, records, name, t) {
      forall r, m | r in records && Contends(network, signed, name, r) && IsNewest(network, signed, records, name, m)
        ensures r.updatedAt + r.ttl <= m.updatedAt + m.ttl
      {
        assert AllAgree(network, signed, records, name, m.updatedAt + m.ttl);
        forall n | IsNewest(network, signed, records, name, n) ensures n == m {
          NewestIsUnique(network, signed, records, name, m, n);
        }
      }
    } else {
      var t :| !AllAgree(network, signed, records, name, t);
      var m := NewestExists(network, signed, records, name);
      assert IsExpired(m, t);
    }
  }

  // ------------------------------------------------------ while nothing expires

  ghost predicate NothingExpires(ops: seq<Op>) {
    forall i, j :: 0 <= i < |ops| && 0 <= j < |ops| && ops[i].Merge? ==> !IsExpired(ops[i].r, ops[j].now)
  }

  function Latest(ops: seq<Op>): int
    requires |ops| > 0
  {
    if |ops| == 1 then ops[0].now else Max(ops[0].now, Latest(ops[1..]))
  }

  lemma {:induction false} LatestIsOne(ops: seq<Op>) returns (k: nat)
    requires |ops| > 0
    ensures k < |ops| && ops[k].now == Latest(ops) && By(ops, Latest(ops))
  {
    if |ops| == 1 {
      k := 0;
    } else {
      k := LatestIsOne(ops[1..]);
      assert forall i :: 1 <= i < |ops| ==> ops[i] == ops[1..][i - 1];
      k := if ops[0].now >= Latest(ops[1..]) then 0 else k + 1;
    }
  }

  /** While nothing expires no time need be looked at, nor any order: replicas offered
      the same records hold the same records. */
  lemma Convergence(network: string, signed: Record -> bool, a: seq<Op>, b: seq<Op>)
    requires Covers(signed) && NothingExpires(a) && NothingExpires(b)
    requires forall r :: Offered(a, r) <==> Offered(b, r)
    ensures After(network, signed, a) == After(network, signed, b)
  {
    var ra, rb := After(network, signed, a), After(network, signed, b);
    forall name ensures At(ra, name) == At(rb, name) {
      SameHeld(network, signed, a, b, name);
    }
    hide After;
    assert forall name :: name in ra <==> At(ra, name).Some?;
    assert forall name :: name in rb <==> At(rb, name).Some?;
    assert ra.Keys == rb.Keys;
    forall name | name in ra ensures ra[name] == rb[name] {
      assert At(ra, name) == At(rb, name);
    }
  }

  ghost function OfferedRecords(ops: seq<Op>): seq<Record> {
    if |ops| == 0 then []
    else OfferedRecords(ops[..|ops| - 1]) + if ops[|ops| - 1].Merge? then [ops[|ops| - 1].r] else []
  }

  lemma {:induction false} OfferedIsListed(ops: seq<Op>, r: Record)
    ensures Offered(ops, r) <==> r in OfferedRecords(ops)
  {
    if |ops| > 0 {
      var rest, op := ops[..|ops| - 1], ops[|ops| - 1];
      assert ops == rest + [op];
      OfferedIsListed(rest, r);
      OfferedMore(rest, op, r);
      hide Offered;
    }
  }

  lemma SameHeld(network: string, signed: Record -> bool, a: seq<Op>, b: seq<Op>, name: string)
    requires Covers(signed) && NothingExpires(a) && NothingExpires(b)
    requires forall r :: Offered(a, r) <==> Offered(b, r)
    ensures At(After(network, signed, a), name) == At(After(network, signed, b), name)
  {
    StoredWasOffered(network, signed, a, name);
    StoredWasOffered(network, signed, b, name);
    var records := OfferedRecords(a);
    forall r ensures Offered(a, r) <==> r in records {
      OfferedIsListed(a, r);
    }
    if exists r :: r in records && Contends(network, signed, name, r) {
      var m := NewestExists(network, signed, records, name);
      HeldWithoutExpiry(network, signed, a, m);
      HeldWithoutExpiry(network, signed, b, m);
    }
    hide After, NothingExpires;
  }

  lemma HeldWithoutExpiry(network: string, signed: Record -> bool, ops: seq<Op>, m: Record)
    requires Covers(signed) && NothingExpires(ops) && Offered(ops, m) && Admissible(network, signed, m)
    requires NoneNewer(network, signed, ops, m)
    ensures At(After(network, signed, ops), m.name) == Some(m)
  {
    var i :| 0 <= i < |ops| && ops[i].Merge? && ops[i].r == m;
    var k := LatestIsOne(ops);
    assert !IsExpired(ops[i].r, ops[k].now);
    NewestIsHeld(network, signed, ops, m, Latest(ops));
  }

  // -------------------------------------------------------------------- wins

  predicate Wins(network: string, signed: Record -> bool, recs: Records, op: Op, name: string) {
    op.Merge? && op.r.name == name && Merged(network, signed, recs, op.r, op.now).1
  }

  /** How often an offer won the name, that is, how often a replica gossips it on. */
  function WinCount(network: string, signed: Record -> bool, ops: seq<Op>, name: string): nat {
    if |ops| == 0 then 0 else
      var rest := ops[..|ops| - 1];
      WinCount(network, signed, rest, name)
      + if Wins(network, signed, After(network, signed, rest), ops[|ops| - 1], name) then 1 else 0
  }

  function Contenders(network: string, signed: Record -> bool, ops: seq<Op>, name: string): set<Record> {
    set op | op in ops && op.Merge? && Contends(network, signed, name, op.r) :: op.r
  }

  function Triangle(n: nat): nat {
    if n == 0 then 0 else n + Triangle(n - 1)
  }

  lemma {:induction false} TriangleGrows(m: nat, n: nat)
    requires m <= n
    ensures Triangle(m) <= Triangle(n)
  {
    if m < n {
      TriangleGrows(m, n - 1);
    }
  }

  function Alive(all: set<Record>, now: int): set<Record> {
    set r | r in all && !IsExpired(r, now)
  }

  function Newer(all: set<Record>, cur: Record, now: int): set<Record> {
    set r | r in Alive(all, now) && Older(cur, r)
  }

  /** The wins that are still possible: rises over the stored record while it lives,
      and after its end a fresh start among one fewer. */
  function WinsLeft(all: set<Record>, cur: Option<Record>, now: int): nat {
    if cur.Some? && cur.value in Alive(all, now)
    then |Newer(all, cur.value, now)| + Triangle(|Alive(all, now) - {cur.value}|)
    else Triangle(|Alive(all, now)|)
  }

  lemma OneFewerAlive(all: set<Record>, cur: Record, now: int)
    requires cur in Alive(all, now)
    ensures |Alive(all, now) - {cur}| + 1 == |Alive(all, now)| && |Newer(all, cur, now)| < |Alive(all, now)|
    ensures |Newer(all, cur, now)| + Triangle(|Alive(all, now) - {cur}|) < Triangle(|Alive(all, now)|)
  {
    var alive := Alive(all, now);
    OlderIsOrder(cur, cur, cur);
    assert Newer(all, cur, now) <= alive - {cur};
    SubsetSize(Newer(all, cur, now), alive - {cur});
    assert alive == (alive - {cur}) + {cur};
  }

  /** Waiting adds no possible win. */
  lemma WaitingWinsNothing(all: set<Record>, cur: Option<Record>, now: int, later: int)
    requires now <= later
    ensures WinsLeft(all, cur, later) <= WinsLeft(all, cur, now)
  {
    var before, after := Alive(all, now), Alive(all, later);
    SubsetSize(after, before);
    TriangleGrows(|after|, |before|);
    if cur.Some? && cur.value in before {
      SubsetSize(Newer(all, cur.value, later), Newer(all, cur.value, now));
      SubsetSize(after - {cur.value}, before - {cur.value});
      TriangleGrows(|after - {cur.value}|, |before - {cur.value}|);
      if cur.value !in after {
        assert after - {cur.value} == after;
      }
    }
    hide Triangle, Newer, Alive;
  }

  /** A win uses one of the possible wins up. */
  lemma WinningCosts(network: string, signed: Record -> bool, all: set<Record>, recs: Records, r: Record, now: int)
    requires Covers(signed) && Merged(network, signed, recs, r, now).1 && r in all
    requires r.name in recs ==> recs[r.name] in all && signed(recs[r.name])
    ensures WinsLeft(all, Some(r), now) < WinsLeft(all, At(recs, r.name), now)
  {
    var cur := At(recs, r.name);
    assert r in Alive(all, now);
    OneFewerAlive(all, r, now);
    if cur.Some? && cur.value in Alive(all, now) {
      MergeIsStrictRise(network, signed, recs, r, now);
      OneFewerAlive(all, cur.value, now);
      NewerShrinks(all, cur.value, r, now);
    }
    hide Alive, Newer, Triangle, Admissible;
  }

  lemma NewerShrinks(all: set<Record>, cur: Record, r: Record, now: int)
    requires Older(cur, r) && r in Alive(all, now)
    ensures |Newer(all, r, now)| < |Newer(all, cur, now)|
  {
    forall x | x in Newer(all, r, now) ensures x in Newer(all, cur, now) {
      OlderIsOrder(cur, r, x);
    }
    OlderIsOrder(r, r, r);
    assert r in Newer(all, cur, now) && r !in Newer(all, r, now);
    SubsetSize(Newer(all, r, now), Newer(all, cur, now));
  }

  lemma {:induction false} WinsAndWinsLeft(network: string, signed: Record -> bool, ops: seq<Op>, name: string,
                                           all: set<Record>, now: int)
    requires Covers(signed) && InTimeOrder(ops, now) && Contenders(network, signed, ops, name) <= all
    ensures WinCount(network, signed, ops, name) + WinsLeft(all, At(After(network, signed, ops), name), now)
            <= Triangle(|all|)
  {
    if |ops| == 0 {
      SubsetSize(Alive(all, now), all);
      TriangleGrows(|Alive(all, now)|, |all|);
    } else {
      var rest, op := ops[..|ops| - 1], ops[|ops| - 1];
      assert ops == rest + [op];
      WinsAndWinsLeft(network, signed, rest, name, all, op.now);
      StoredContends(network, signed, rest, name);
      AfterIsFiled(network, signed, rest);
      WinStep(network, signed, After(network, signed, rest), op, name, all);
      WaitingWinsNothing(all, At(After(network, signed, ops), name), op.now, now);
      hide WinsLeft, Wins, After, Covers, Contenders, At;
      AfterLast(network, signed, rest, op);
    }
  }

  lemma AfterLast(network: string, signed: Record -> bool, rest: seq<Op>, op: Op)
    ensures After(network, signed, rest + [op]) == Step(network, signed, After(network, signed, rest), op)
  {
    assert (rest + [op])[..|rest|] == rest;
  }

  lemma StoredContends(network: string, signed: Record -> bool, ops: seq<Op>, name: string)
    ensures var recs := After(network, signed, ops);
            name in recs ==> recs[name] in Contenders(network, signed, ops, name) && signed(recs[name])
  {
    StoredWasOffered(network, signed, ops, name);
    hide After, IsValidRevocation;
  }

  lemma WinStep(network: string, signed: Record -> bool, recs: Records, op: Op, name: string, all: set<Record>)
    requires Covers(signed) && Filed(recs) && (name in recs ==> recs[name] in all && signed(recs[name]))
    requires op.Merge? && Contends(network, signed, name, op.r) ==> op.r in all
    ensures WinsLeft(all, At(Step(network, signed, recs, op), name), op.now)
            + (if Wins(network, signed, recs, op, name) then 1 else 0)
            <= WinsLeft(all, At(recs, name), op.now)
  {
    StepOnName(network, signed, recs, op, name);
    if Wins(network, signed, recs, op, name) {
      WinningCosts(network, signed, all, recs, op.r, op.now);
    }
    assert name in recs && IsExpired(recs[name], op.now) ==> recs[name] !in Alive(all, op.now);
    hide Step, Merged, Alive, Newer, Triangle, Filed, Contends, Covers;
  }

  /** An operation leaves a name alone, gives it to a winner, or clears what expired. */
  lemma StepOnName(network: string, signed: Record -> bool, recs: Records, op: Op, name: string)
    requires Filed(recs)
    ensures var after := At(Step(network, signed, recs, op), name);
            if Wins(network, signed, recs, op, name) then after == Some(op.r) && Contends(network, signed, name, op.r)
            else after == At(recs, name) || (after == None && name in recs && IsExpired(recs[name], op.now))
  {
    KeysAreNames(recs);
    hide Admissible, Filed;
  }

  /** Passing winners around comes to an end, expiry or not: with `n` distinct
      admissible records a name is won at most `n * (n + 1) / 2` times. */
  lemma WinsAreBounded(network: string, signed: Record -> bool, ops: seq<Op>, name: string, end: int)
    requires Covers(signed) && InTimeOrder(ops, end)
    ensures WinCount(network, signed, ops, name) <= Triangle(|Contenders(network, signed, ops, name)|)
  {
    WinsAndWinsLeft(network, signed, ops, name, Contenders(network, signed, ops, name), end);
    hide *;
  }

  /** While nothing expires, each record wins at most once, in whatever order. */
  lemma {:induction false} WinsWithoutExpiry(network: string, signed: Record -> bool, ops: seq<Op>, name: string)
    requires Covers(signed) && NothingExpires(ops)
    ensures WinCount(network, signed, ops, name) <= |Contenders(network, signed, ops, name)|
  {
    if |ops| > 0 {
      var rest, op := ops[..|ops| - 1], ops[|ops| - 1];
      assert ops == rest + [op];
      WinsWithoutExpiry(network, signed, rest, name);
      var before, after := Contenders(network, signed, rest, name), Contenders(network, signed, ops, name);
      assert before <= after;
      if Wins(network, signed, After(network, signed, rest), op, name) {
        WinnerIsNew(network, signed, rest, op, name);
        assert op.r in after;
        SubsetSize(before + {op.r}, after);
      } else {
        SubsetSize(before, after);
      }
      hide Wins, Contenders, NothingExpires;
    }
  }

  lemma WinnerIsNew(network: string, signed: Record -> bool, rest: seq<Op>, op: Op, name: string)
    requires Covers(signed) && NothingExpires(rest + [op])
    requires Wins(network, signed, After(network, signed, rest), op, name)
    ensures Contends(network, signed, name, op.r) && op.r !in Contenders(network, signed, rest, name)
  {
    var ops, recs := rest + [op], After(network, signed, rest);
    assert ops[|rest|] == op && forall i :: 0 <= i < |rest| ==> ops[i] == rest[i];
    assert NothingExpires(rest);
    StoredIsNewest(network, signed, rest, name);
    StoredContends(network, signed, rest, name);
    if name in recs {
      assert exists i :: 0 <= i < |rest| && rest[i].Merge? && rest[i].r == recs[name] by {
        StoredWasOffered(network, signed, rest, name);
      }
      MergeIsStrictRise(network, signed, recs, op.r, op.now);
    }
    forall r | r in Contenders(network, signed, rest, name)
      ensures Offered(rest, r) && Contends(network, signed, name, r) {
      var o :| o in rest && o.Merge? && Contends(network, signed, name, o.r) && o.r == r;
      var i :| 0 <= i < |rest| && rest[i] == o;
    }
    hide After, NothingExpires, Contenders, Admissible, Older;
  }

  lemma StoredIsNewest(network: string, signed: Record -> bool, ops: seq<Op>, name: string)
    requires Covers(signed) && NothingExpires(ops)
    ensures var recs := After(network, signed, ops);
            forall r :: Offered(ops, r) && Contends(network, signed, name, r) ==> name in recs && !Older(recs[name], r)
  {
    var records := OfferedRecords(ops);
    forall r ensures Offered(ops, r) <==> r in records {
      OfferedIsListed(ops, r);
    }
    if exists r :: r in records && Contends(network, signed, name, r) {
      var m := NewestExists(network, signed, records, name);
      HeldWithoutExpiry(network, signed, ops, m);
    }
    hide After, NothingExpires, Older, Admissible;
  }
}
