/** When replicas of the name service agree if no record is offered before the time its
    publisher put on it, that is, if nobody's clock is ahead. */
module NameClocks {
  import opened Basics
  import opened Ordering
  import opened NameService
  import opened NameConvergence

  ghost predicate InClock(ops: seq<Op>) {
    forall i :: 0 <= i < |ops| && ops[i].Merge? ==> ops[i].r.updatedAt <= ops[i].now
  }

  ghost predicate ClockSchedule(ops: seq<Op>, records: seq<Record>, t: int) {
    Schedule(ops, records, t) && InClock(ops)
  }

  ghost predicate AllAgreeInClock(network: string, signed: Record -> bool, records: seq<Record>, name: string, t: int) {
    forall a, b :: ClockSchedule(a, records, t) && ClockSchedule(b, records, t) ==>
      Unexpired(After(network, signed, a), name, t) == Unexpired(After(network, signed, b), name, t)
  }

  /** A newer record that was still alive when both were out. */
  predicate Overtakes(x: Record, r: Record) {
    Older(r, x) && Max(r.updatedAt, x.updatedAt) < x.updatedAt + x.ttl
  }

  ghost predicate IsNewestLive(network: string, signed: Record -> bool, records: seq<Record>, name: string, t: int,
                               r: Record) {
    && r in records && Contends(network, signed, name, r) && !IsExpired(r, t)
    && forall x :: x in records && Contends(network, signed, name, x) && !IsExpired(x, t) ==> !Older(r, x)
  }

  ghost predicate NoneOvertakes(network: string, signed: Record -> bool, records: seq<Record>, r: Record) {
    forall x :: x in records && Contends(network, signed, r.name, x) ==> !Overtakes(x, r)
  }

  /** What decides agreement: everything has expired, or no newer record was alive together
      with the newest live one; or else some record is not out yet. */
  ghost predicate LiveDecides(network: string, signed: Record -> bool, records: seq<Record>, name: string, t: int) {
    || (exists r :: r in records && r.updatedAt > t)
    || (forall r :: r in records && Contends(network, signed, name, r) ==> IsExpired(r, t))
    || (exists r :: IsNewestLive(network, signed, records, name, t, r) && NoneOvertakes(network, signed, records, r))
  }

  // ------------------------------------------------------------- agreement

  /** What is stored was alive when it was offered. */
  lemma {:induction false} StoredWasAlive(network: string, signed: Record -> bool, ops: seq<Op>, name: string)
    requires InClock(ops)
    ensures var recs := After(network, signed, ops);
            name in recs ==> recs[name].updatedAt < recs[name].updatedAt + recs[name].ttl
  {
    if |ops| > 0 {
      StoredWasAlive(network, signed, ops[..|ops| - 1], name);
      hide Admissible;
    }
  }

  /** A record that nothing overtakes is held from the moment it is offered until it
      expires. */
  lemma {:induction false} LiveIsHeld(network: string, signed: Record -> bool, ops: seq<Op>, r: Record, t: int)
    requires Covers(signed) && InTimeOrder(ops, t) && InClock(ops)
    requires Admissible(network, signed, r) && !IsExpired(r, t) && Offered(ops, r)
    requires forall x :: Offered(ops, x) && Contends(network, signed, r.name, x) ==> !Overtakes(x, r)
    ensures At(After(network, signed, ops), r.name) == Some(r)
  {
    var rest, op := ops[..|ops| - 1], ops[|ops| - 1];
    assert ops == rest + [op];
    var before := After(network, signed, rest);
    AfterIsFiled(network, signed, rest);
    StoredWasOffered(network, signed, rest, r.name);
    StoredWasAlive(network, signed, rest, r.name);
    forall x ensures Offered(ops, x) <==> Offered(rest, x) || (op.Merge? && op.r == x) {
      OfferedMore(rest, op, x);
    }
    if Offered(rest, r) {
      LiveIsHeld(network, signed, rest, r, t);
      var i :| 0 <= i < |rest| && rest[i].Merge? && rest[i].r == r;
      assert ops[i] == rest[i] && ops[i].now <= op.now;
    }
    hide After, Admissible, Filed, Offered, Overtakes, InTimeOrder;
    LiveStep(network, signed, before, op, r, t, Offered(rest, r));
    AfterLast(network, signed, rest, op);
  }

  lemma LiveStep(network: string, signed: Record -> bool, before: Records, op: Op, r: Record, t: int, held: bool)
    requires Covers(signed) && Filed(before) && op.now <= t && !IsExpired(r, t) && Admissible(network, signed, r)
    requires op.now >= r.updatedAt && (op.Merge? ==> op.now >= op.r.updatedAt)
    requires if held then At(before, r.name) == Some(r) else op.Merge? && op.r == r
    requires r.name in before ==> var c := before[r.name];
                                  signed(c) && !Overtakes(c, r) && c.updatedAt < c.updatedAt + c.ttl
    requires op.Merge? && Contends(network, signed, r.name, op.r) ==> !Overtakes(op.r, r)
    ensures At(Step(network, signed, before, op), r.name) == Some(r)
  {
    SignedIfAdmissible(network, signed, r);
    if r.name in before {
      OlderIsOrder(r, before[r.name], r);
    }
    if op.Merge? && Admissible(network, signed, op.r) {
      SignedIfAdmissible(network, signed, op.r);
      OlderIsOrder(op.r, r, r);
    }
    KeysAreNames(before);
    hide Older, Admissible, Filed;
  }

  lemma DecidedInClock(network: string, signed: Record -> bool, records: seq<Record>, name: string, t: int,
                       ops: seq<Op>)
    requires Covers(signed) && ClockSchedule(ops, records, t) && LiveDecides(network, signed, records, name, t)
    ensures var shown := Unexpired(After(network, signed, ops), name, t);
            if shown.Some? then IsNewestLive(network, signed, records, name, t, shown.value)
            else forall r :: r in records && Contends(network, signed, name, r) ==> IsExpired(r, t)
  {
    StoredWasOffered(network, signed, ops, name);
    forall r | r in records ensures r.updatedAt <= t {
      assert Offered(ops, r);
      var i :| 0 <= i < |ops| && ops[i].Merge? && ops[i].r == r;
    }
    if r :| IsNewestLive(network, signed, records, name, t, r) && NoneOvertakes(network, signed, records, r) {
      assert Offered(ops, r);
      LiveIsHeld(network, signed, ops, r, t);
    }
    hide After, Older, Admissible, Overtakes;
  }

  lemma NewestLiveIsUnique(network: string, signed: Record -> bool, records: seq<Record>, name: string, t: int,
                           r: Record, s: Record)
    requires Covers(signed)
    requires IsNewestLive(network, signed, records, name, t, r) && IsNewestLive(network, signed, records, name, t, s)
    ensures r == s
  {
    OlderIsOrder(r, s, r);
  }

  lemma ShownAlikeInClock(network: string, signed: Record -> bool, records: seq<Record>, name: string, t: int,
                          a: seq<Op>, b: seq<Op>)
    requires Covers(signed) && LiveDecides(network, signed, records, name, t)
    requires ClockSchedule(a, records, t) && ClockSchedule(b, records, t)
    ensures Unexpired(After(network, signed, a), name, t) == Unexpired(After(network, signed, b), name, t)
  {
    DecidedInClock(network, signed, records, name, t, a);
    DecidedInClock(network, signed, records, name, t, b);
    var x, y := Unexpired(After(network, signed, a), name, t), Unexpired(After(network, signed, b), name, t);
    hide After, Covers, ClockSchedule, LiveDecides;
    if x.Some? && y.Some? {
      NewestLiveIsUnique(network, signed, records, name, t, x.value, y.value);
    }
  }

  // ---------------------------------------------------------- disagreement

  lemma {:induction false} NewestLiveExists(network: string, signed: Record -> bool, records: seq<Record>, name: string,
                                            t: int) returns (r: Record)
    requires Covers(signed) && exists x :: x in records && Contends(network, signed, name, x) && !IsExpired(x, t)
    ensures IsNewestLive(network, signed, records, name, t, r)
  {
    var rest, last := records[..|records| - 1], records[|records| - 1];
    assert records == rest + [last];
    assert forall x :: x in records <==> x in rest || x == last;
    OlderIsOrder(last, last, last);
    if exists x :: x in rest && Contends(network, signed, name, x) && !IsExpired(x, t) {
      r := NewestLiveExists(network, signed, rest, name, t);
      if Contends(network, signed, name, last) && !IsExpired(last, t) {
        OlderIsOrder(r, last, r);
        if Older(r, last) {
          forall x | x in rest && Contends(network, signed, name, x) && !IsExpired(x, t) ensures !Older(last, x) {
            OlderIsOrder(r, last, x);
          }
          r := last;
        }
      }
    } else {
      r := last;
    }
    hide Older, Contends, IsExpired;
  }

  /** Offered all at once, the newest live record wins. */
  lemma {:induction false} LateShows(network: string, signed: Record -> bool, records: seq<Record>, name: string,
                                     t: int, r: Record)
    requires Covers(signed) && IsNewestLive(network, signed, records, name, t, r)
    ensures At(After(network, signed, AtOnce(records, t)), name) == Some(r)
  {
    var rest, last := records[..|records| - 1], records[|records| - 1];
    assert records == rest + [last];
    var ops := AtOnce(rest, t);
    assert AtOnce(records, t) == ops + [Merge(last, t)];
    AfterLast(network, signed, ops, Merge(last, t));
    if r in rest {
      LateShows(network, signed, rest, name, t, r);
    }
    var before := After(network, signed, ops);
    AfterIsFiled(network, signed, ops);
    StoredWasOffered(network, signed, ops, name);
    AliveAtOnce(network, signed, rest, name, t);
    assert name in before ==> before[name] in records;
    hide After, AtOnce, IsExpired, Filed;
    LateStep(network, signed, before, last, r, t, r in rest);
  }

  lemma {:induction false} AliveAtOnce(network: string, signed: Record -> bool, records: seq<Record>, name: string,
                                       t: int)
    ensures var recs := After(network, signed, AtOnce(records, t)); name in recs ==> !IsExpired(recs[name], t)
  {
    if |records| > 0 {
      var rest, last := records[..|records| - 1], records[|records| - 1];
      assert AtOnce(records, t) == AtOnce(rest, t) + [Merge(last, t)];
      AfterLast(network, signed, AtOnce(rest, t), Merge(last, t));
      AliveAtOnce(network, signed, rest, name, t);
      hide After, AtOnce, IsExpired, Admissible;
    }
  }

  lemma LateStep(network: string, signed: Record -> bool, before: Records, last: Record, r: Record, t: int, held: bool)
    requires Covers(signed) && !IsExpired(r, t) && Admissible(network, signed, r)
    requires if held then At(before, r.name) == Some(r) else last == r
    requires r.name in before ==> signed(before[r.name]) && !IsExpired(before[r.name], t) && !Older(r, before[r.name])
    requires Contends(network, signed, r.name, last) && !IsExpired(last, t) ==> !Older(r, last)
    ensures At(Step(network, signed, before, Merge(last, t)), r.name) == Some(r)
  {
    SignedIfAdmissible(network, signed, r);
    if r.name in before {
      OlderIsOrder(r, before[r.name], r);
    }
    if Admissible(network, signed, last) {
      SignedIfAdmissible(network, signed, last);
      OlderIsOrder(last, r, r);
    }
    hide Older, Admissible;
  }

  /** A record that was refused is not stored unless it is offered again. */
  lemma {:induction false} StaysOut(network: string, signed: Record -> bool, start: seq<Op>, more: seq<Op>, r: Record)
    requires At(After(network, signed, start), r.name) != Some(r)
    requires forall i :: 0 <= i < |more| ==> !(more[i].Merge? && more[i].r == r)
    ensures At(After(network, signed, start + more), r.name) != Some(r)
  {
    if |more| == 0 {
      assert start + more == start;
    } else {
      var rest, op := more[..|more| - 1], more[|more| - 1];
      assert start + more == start + rest + [op];
      StaysOut(network, signed, start, rest, r);
      AfterLast(network, signed, start + rest, op);
      hide After, Admissible, IsExpired;
    }
  }

  function NotThis(r: Record): Record -> bool {
    x => x != r
  }

  /** The newer record is there first; all others come when it has expired, but the
      overtaken one came too early. */
  function Early(records: seq<Record>, x: Record, r: Record, t: int): seq<Op> {
    [Merge(x, x.updatedAt + x.ttl - 1), Merge(r, x.updatedAt + x.ttl - 1)] + AtOnce(Filter(records, NotThis(r)), t)
  }

  lemma EarlyShape(records: seq<Record>, x: Record, r: Record, t: int)
    ensures var ops, others, now := Early(records, x, r, t), Filter(records, NotThis(r)), x.updatedAt + x.ttl - 1;
            && |ops| == |others| + 2 && ops[0] == Merge(x, now) && ops[1] == Merge(r, now)
            && forall i :: 2 <= i < |ops| ==> ops[i] == Merge(others[i - 2], t)
  {
    hide Filter, NotThis;
  }

  lemma EarlyOffers(records: seq<Record>, x: Record, r: Record, t: int, y: Record)
    requires x in records && r in records
    ensures Offered(Early(records, x, r, t), y) <==> y in records
  {
    var ops, others := Early(records, x, r, t), Filter(records, NotThis(r));
    FilterMembers(records, NotThis(r));
    EarlyShape(records, x, r, t);
    hide Early, Filter;
    if Offered(ops, y) {
      var i :| 0 <= i < |ops| && ops[i].Merge? && ops[i].r == y;
      if i >= 2 {
        assert others[i - 2] in others;
      }
    }
    if y in records && y != r {
      assert y in others;
      var j :| 0 <= j < |others| && others[j] == y;
      assert ops[j + 2].r == y;
    }
    if y == r {
      assert ops[1].r == r;
    }
  }

  lemma EarlyIsSchedule(records: seq<Record>, x: Record, r: Record, t: int)
    requires x in records && r in records && Overtakes(x, r) && IsExpired(x, t)
    requires forall y :: y in records ==> y.updatedAt <= t
    ensures ClockSchedule(Early(records, x, r, t), records, t)
  {
    var ops, others := Early(records, x, r, t), Filter(records, NotThis(r));
    FilterMembers(records, NotThis(r));
    forall y ensures Offered(ops, y) <==> y in records {
      EarlyOffers(records, x, r, t, y);
    }
    EarlyShape(records, x, r, t);
    hide Early, Filter, Older, Offered;
    forall i | 0 <= i < |ops| && ops[i].Merge? ensures ops[i].r.updatedAt <= ops[i].now {
      if i >= 2 {
        assert others[i - 2] in others;
      }
    }
  }

  /** The newer record, still alive, keeps the older one out. */
  lemma NewerRefuses(network: string, signed: Record -> bool, x: Record, r: Record)
    requires Overtakes(x, r) && Contends(network, signed, r.name, x)
    ensures var now := x.updatedAt + x.ttl - 1;
            At(After(network, signed, [Merge(x, now), Merge(r, now)]), r.name) == Some(x)
  {
    var now := x.updatedAt + x.ttl - 1;
    assert [Merge(x, now), Merge(r, now)] == [] + [Merge(x, now)] + [Merge(r, now)];
    AfterLast(network, signed, [], Merge(x, now));
    AfterLast(network, signed, [] + [Merge(x, now)], Merge(r, now));
    assert After(network, signed, []) == map[];
    hide After;
    OlderIsOrder(r, x, r);
    assert !IsExpired(x, now);
    hide Older, Admissible;
  }

  lemma EarlyHides(network: string, signed: Record -> bool, records: seq<Record>, x: Record, r: Record, t: int)
    requires Overtakes(x, r) && Contends(network, signed, r.name, x)
    ensures At(After(network, signed, Early(records, x, r, t)), r.name) != Some(r)
  {
    var now, others := x.updatedAt + x.ttl - 1, Filter(records, NotThis(r));
    NewerRefuses(network, signed, x, r);
    OlderIsOrder(r, x, r);
    FilterMembers(records, NotThis(r));
    hide After, Admissible, Older, Filter;
    forall i | 0 <= i < |others| ensures AtOnce(others, t)[i].r != r {
      assert others[i] in others;
    }
    StaysOut(network, signed, [Merge(x, now), Merge(r, now)], AtOnce(others, t), r);
  }

  /** If a newer record was alive together with the newest live one, a replica that heard of
      both then does not show the latter, although one that hears of it now does. */
  lemma DisagreementInClock(network: string, signed: Record -> bool, records: seq<Record>, name: string, t: int)
    requires Covers(signed) && !LiveDecides(network, signed, records, name, t)
    ensures exists early, late, r ::
              && ClockSchedule(early, records, t) && ClockSchedule(late, records, t)
              && IsNewestLive(network, signed, records, name, t, r)
              && Unexpired(After(network, signed, early), name, t) != Some(r)
              && Unexpired(After(network, signed, late), name, t) == Some(r)
  {
    var r := NewestLiveExists(network, signed, records, name, t);
    assert !NoneOvertakes(network, signed, records, r);
    var x :| x in records && Contends(network, signed, name, x) && Overtakes(x, r);
    assert IsExpired(x, t);
    var early, late := Early(records, x, r, t), AtOnce(records, t);
    AtOnceIsSchedule(records, t, t);
    EarlyIsSchedule(records, x, r, t);
    assert ClockSchedule(late, records, t);
    LateShows(network, signed, records, name, t, r);
    EarlyHides(network, signed, records, x, r, t);
    hide After, ClockSchedule, Overtakes, Early, AtOnce;
  }

  /** For every name and time: replicas offered the same records, none of them before its
      own time, agree if and only if all have expired, or no newer record was alive together
      with the newest live one. (If some record is not out yet, there is nothing to agree
      on.) A publisher that restarts with a lower version is thus shown everywhere once its
      older records had expired before it published again. */
  lemma AgreeInClockIffLiveDecides(network: string, signed: Record -> bool, records: seq<Record>, name: string, t: int)
    requires Covers(signed)
    ensures AllAgreeInClock(network, signed, records, name, t) <==> LiveDecides(network, signed, records, name, t)
  {
    if LiveDecides(network, signed, records, name, t) {
      forall a, b | ClockSchedule(a, records, t) && ClockSchedule(b, records, t)
        ensures Unexpired(After(network, signed, a), name, t) == Unexpired(After(network, signed, b), name, t)
      {
        ShownAlikeInClock(network, signed, records, name, t, a, b);
      }
    } else {
      DisagreementInClock(network, signed, records, name, t);
    }
    hide After, ClockSchedule, Unexpired, LiveDecides;
  }

  lemma RestartDecides(network: string, signed: Record -> bool, first: Record, again: Record, t: int)
    requires Older(again, first) && Contends(network, signed, first.name, again)
    requires first.updatedAt + first.ttl <= again.updatedAt <= t && !IsExpired(again, t)
    ensures LiveDecides(network, signed, [first, again], first.name, t)
    ensures !NewestDecides(network, signed, [first, again], first.name, t)
            || !Contends(network, signed, first.name, first)
  {
    OlderIsOrder(again, first, again);
    OlderIsOrder(again, again, again);
    hide Older, Admissible;
    var records := [first, again];
    assert first in records && again in records && forall x :: x in records ==> x == first || x == again;
    assert IsNewestLive(network, signed, records, first.name, t, again);
    assert NoneOvertakes(network, signed, records, again);
  }

  /** For instance: without clocks ahead, the record that a publisher issues under a lower
      version, after its last one has expired, reaches everybody; with clocks ahead it need
      not. */
  lemma RestartedPublisher(network: string, signed: Record -> bool, first: Record, again: Record, t: int)
    requires Covers(signed) && Older(again, first)
    requires Contends(network, signed, first.name, first) && Contends(network, signed, first.name, again)
    requires first.updatedAt + first.ttl <= again.updatedAt <= t && !IsExpired(again, t)
    ensures AllAgreeInClock(network, signed, [first, again], first.name, t)
    ensures !AllAgree(network, signed, [first, again], first.name, t)
  {
    hide *;
    RestartDecides(network, signed, first, again, t);
    AgreeInClockIffLiveDecides(network, signed, [first, again], first.name, t);
    AgreeIffNewestDecides(network, signed, [first, again], first.name, t);
  }
}
