/** Version-vector anti-entropy: when rounds of truncated deltas complete a log,
    and when they never can. */
module AntiEntropy {
  import opened Ordering
  import opened Crdt
  import opened Conversation

  /** What `p` holds and `q` lacks. */
  function Unseen(p: Log, q: Log): set<Entry> {
    set e | e in p.entries && e.id !in Ids(q.entries)
  }

  /** Two logs that hold an id hold the same entry under it. */
  ghost predicate Agree(p: Log, q: Log) {
    forall a, b :: a in p.entries && b in q.entries && a.id == b.id ==> a == b
  }

  /** Within an origin, a later sequence number carries a later Lamport time. */
  ghost predicate ClockRises(log: Log) {
    forall a, b :: a in log.entries && b in log.entries && a.origin == b.origin && a.seqNo < b.seqNo
                   ==> a.lamport < b.lamport
  }

  ghost predicate Holds(log: Log, origin: string, seqNo: int) {
    exists e :: e in log.entries && e.origin == origin && e.seqNo == seqNo
  }

  /** Every origin's entries are numbered 1, 2, 3, ... without a hole. */
  ghost predicate GapFree(log: Log) {
    forall e :: e in log.entries ==>
      e.seqNo >= 1 && forall s :: 1 <= s < e.seqNo ==> Holds(log, e.origin, s)
  }

  /** Nothing that `p` could supply lies at or below `q`'s own mark. */
  ghost predicate NoHole(q: Log, p: Log) {
    forall e :: e in p.entries && e.id !in Ids(q.entries) ==> e.seqNo > Mark(q.vv, e.origin)
  }

  predicate AllAcceptable(log: Log, authentic: Entry -> bool) {
    forall e :: e in log.entries ==> Acceptable(e, authentic)
  }

  /** One exchange: `q` sends its vector, `p` answers, `q` accepts the answer. */
  function Round(q: Log, p: Log, authentic: Entry -> bool): Log {
    Accepted(q, EntriesMissingFrom(p, q.vv), authentic)
  }

  function Rounds(q: Log, p: Log, authentic: Entry -> bool, n: nat): Log {
    if n == 0 then q else Round(Rounds(q, p, authentic, n - 1), p, authentic)
  }

  /** Exchanges with a series of different peers, or one peer at different times. */
  function RoundsWith(q: Log, peers: seq<Log>, authentic: Entry -> bool): Log {
    if |peers| == 0 then q
    else Round(RoundsWith(q, peers[..|peers| - 1], authentic), peers[|peers| - 1], authentic)
  }

  /** The delta is exactly what the requester lacks if and only if the requester
      has no hole that the responder could fill. */
  lemma DeltaIsTheUnseen(q: Log, p: Log)
    requires Wf(p) && Wf(q)
    ensures (forall e :: e in EntriesMissingFrom(p, q.vv) <==> e in Unseen(p, q)) <==> NoHole(q, p)
  {
    DeltaMembers(p, q.vv);
    var d := EntriesMissingFrom(p, q.vv);
    forall e | e in d ensures e in Unseen(p, q) {
      if e.id in Ids(q.entries) {
        var x :| x in q.entries && x.id == e.id;
        EntryIdInjective(x.origin, x.seqNo, e.origin, e.seqNo);
        assert false;
      }
    }
    if forall e :: e in d <==> e in Unseen(p, q) {
      forall e | e in p.entries && e.id !in Ids(q.entries) ensures e.seqNo > Mark(q.vv, e.origin) {
        assert e in Unseen(p, q);
      }
    }
  }

  /** An honest answer survives the receiver's checks; only its length is cut. */
  lemma RoundMergesTheHead(q: Log, p: Log, authentic: Entry -> bool)
    requires Wf(p) && AllAcceptable(p, authentic)
    ensures Round(q, p, authentic) == Merged(q, Truncate(EntriesMissingFrom(p, q.vv)))
  {
    DeltaMembers(p, q.vv);
    FilterAll(Truncate(EntriesMissingFrom(p, q.vv)), (e: Entry) => Acceptable(e, authentic));
  }

  lemma HeadIds(q: Log, head: seq<Entry>)
    requires forall e :: e in head ==> WellNamed(e)
    ensures forall id :: id in Ids(Merged(q, head).entries) <==> id in Ids(q.entries) || id in Ids(head)
  {
    MergeIsUnion(q, head);
    assert NamedIds(head) == Ids(head);
  }

  /** A merged mark comes from the old mark or from an entry of the batch. */
  lemma MarkAfterMerge(q: Log, head: seq<Entry>, o: string)
    requires Wf(q)
    ensures Mark(Merged(q, head).vv, o) >= Mark(q.vv, o)
    ensures Mark(Merged(q, head).vv, o) == Mark(q.vv, o)
            || exists x :: x in head && x.origin == o && x.seqNo == Mark(Merged(q, head).vv, o)
  {
    MergeWf(q, head);
    MergeExtends(q, head);
    var r := Merged(q, head);
    if o in q.vv {
      var y :| y in q.entries && y.origin == o && y.seqNo == q.vv[o];
      assert y in r.entries;
    } else if o in r.vv {
      assert r.vv[o] > 0;
    }
    if o in r.vv {
      var x :| x in r.entries && x.origin == o && x.seqNo == r.vv[o];
    }
  }

  /** Cutting the delta opens no hole: the delta is in Lamport order, so what is
      cut off of an origin comes after what is kept of it. */
  lemma RoundKeepsNoHole(q: Log, p: Log, authentic: Entry -> bool)
    requires Wf(p) && Wf(q) && ClockRises(p) && AllAcceptable(p, authentic) && NoHole(q, p)
    ensures Wf(Round(q, p, authentic)) && NoHole(Round(q, p, authentic), p)
  {
    var d := EntriesMissingFrom(p, q.vv);
    var head := Truncate(d);
    var r := Round(q, p, authentic);
    RoundMergesTheHead(q, p, authentic);
    DeltaMembers(p, q.vv);
    MergeWf(q, head);
    HeadIds(q, head);
    forall e | e in p.entries && e.id !in Ids(r.entries) ensures e.seqNo > Mark(r.vv, e.origin) {
      assert e in d && e !in head;
      MarkAfterMerge(q, head, e.origin);
      if Mark(r.vv, e.origin) != Mark(q.vv, e.origin) {
        var x :| x in head && x.origin == e.origin && x.seqNo == Mark(r.vv, e.origin);
        CutAfterKept(p, d, x, e);
      }
    }
  }

  lemma CutAfterKept(p: Log, d: seq<Entry>, x: Entry, e: Entry)
    requires Wf(p) && ClockRises(p) && Sorted(d, Before) && (forall y :: y in d ==> y in p.entries)
    requires x in Truncate(d) && e in d && e !in Truncate(d) && x.origin == e.origin
    ensures x.seqNo < e.seqNo
  {
    var i :| 0 <= i < |Truncate(d)| && Truncate(d)[i] == x;
    var j :| 0 <= j < |d| && d[j] == e;
    assert forall k :: 0 <= k < |Truncate(d)| ==> d[k] == Truncate(d)[k];
    assert j >= |Truncate(d)|;
    assert !Before(d[j], d[i]);
    if x.seqNo == e.seqNo {
      SameIdSameEntry(p, x, e);
    }
  }

  lemma CardinalityOfDistinct<T>(s: seq<T>)
    requires Distinct(s)
    ensures |set x | x in s| == |s|
  {
    if |s| > 0 {
      var t := s[..|s| - 1];
      CardinalityOfDistinct(t);
      assert (set x | x in s) == (set x | x in t) + {s[|s| - 1]};
    }
  }

  /** A round brings the head of the delta, and only that. */
  lemma UnseenAfterRound(q: Log, p: Log, authentic: Entry -> bool)
    requires Wf(p) && Wf(q) && AllAcceptable(p, authentic)
    ensures forall e :: e in Unseen(p, Round(q, p, authentic)) <==>
                        e in Unseen(p, q) && e !in Truncate(EntriesMissingFrom(p, q.vv))
  {
    var head := Truncate(EntriesMissingFrom(p, q.vv));
    RoundMergesTheHead(q, p, authentic);
    DeltaMembers(p, q.vv);
    HeadIds(q, head);
    forall e | e in p.entries ensures e in head <==> e.id in Ids(head) {
      if e.id in Ids(head) {
        var x :| x in head && x.id == e.id;
        SameIdSameEntry(p, x, e);
      }
    }
  }

  lemma CutCount(d: seq<Entry>)
    requires Distinct(d)
    ensures |(set e | e in d) - (set e | e in Truncate(d))| == Excess(|d|, 1)
  {
    CardinalityOfDistinct(d);
    CardinalityOfDistinct(Truncate(d));
    assert (set e | e in Truncate(d)) <= (set e | e in d);
  }

  lemma RoundProgress(q: Log, p: Log, authentic: Entry -> bool)
    requires Wf(p) && Wf(q) && AllAcceptable(p, authentic) && NoHole(q, p)
    ensures |Unseen(p, Round(q, p, authentic))| == Excess(|Unseen(p, q)|, 1)
  {
    hide Wf, NoHole, AllAcceptable, Round, Unseen, EntriesMissingFrom, Truncate;
    var d := EntriesMissingFrom(p, q.vv);
    UnseenAfterRound(q, p, authentic);
    assert Distinct(d) by { DeltaMembers(p, q.vv); }
    CutCount(d);
    CardinalityOfDistinct(d);
    DeltaIsTheUnseen(q, p);
    assert (set e | e in d) == Unseen(p, q);
    assert Unseen(p, Round(q, p, authentic)) == (set e | e in d) - (set e | e in Truncate(d));
  }

  /** What `n` full deltas leave of `k` entries. */
  function Excess(k: nat, n: nat): nat {
    if k <= n * MAX_ENTRIES_PER_DELTA then 0 else k - n * MAX_ENTRIES_PER_DELTA
  }

  lemma {:induction false} RoundsProgress(q: Log, p: Log, authentic: Entry -> bool, n: nat)
    requires Wf(p) && Wf(q) && ClockRises(p) && AllAcceptable(p, authentic) && NoHole(q, p)
    ensures Wf(Rounds(q, p, authentic, n)) && NoHole(Rounds(q, p, authentic, n), p)
    ensures |Unseen(p, Rounds(q, p, authentic, n))| == Excess(|Unseen(p, q)|, n)
  {
    hide Wf, NoHole, ClockRises, AllAcceptable, Round, Unseen;
    if n > 0 {
      var before := Rounds(q, p, authentic, n - 1);
      RoundsProgress(q, p, authentic, n - 1);
      assert Excess(Excess(|Unseen(p, q)|, n - 1), 1) == Excess(|Unseen(p, q)|, n);
      RoundProgress(before, p, authentic);
      RoundKeepsNoHole(before, p, authentic);
      assert Rounds(q, p, authentic, n) == Round(before, p, authentic);
    }
  }

  /** Below its own mark a requester never asks again: whoever answers, in however
      many rounds, an entry missing there stays missing. */
  lemma {:induction false} HoleIsPermanent(q: Log, peers: seq<Log>, authentic: Entry -> bool, e: Entry)
    requires Wf(q) && (forall k :: 0 <= k < |peers| ==> Wf(peers[k]))
    requires WellNamed(e) && e.id !in Ids(q.entries) && e.seqNo <= Mark(q.vv, e.origin)
    ensures var r := RoundsWith(q, peers, authentic);
            Wf(r) && e.id !in Ids(r.entries) && e.seqNo <= Mark(r.vv, e.origin)
  {
    if |peers| > 0 {
      var last := |peers| - 1;
      HoleIsPermanent(q, peers[..last], authentic, e);
      hide Wf, WellNamed, Ids, Round;
      HoleStays(RoundsWith(q, peers[..last], authentic), peers[last], authentic, e);
    }
  }

  lemma HoleStays(q: Log, p: Log, authentic: Entry -> bool, e: Entry)
    requires Wf(q) && Wf(p) && WellNamed(e) && e.id !in Ids(q.entries) && e.seqNo <= Mark(q.vv, e.origin)
    ensures var r := Round(q, p, authentic);
            Wf(r) && e.id !in Ids(r.entries) && e.seqNo <= Mark(r.vv, e.origin)
  {
    hide Wf;
    var d := EntriesMissingFrom(p, q.vv);
    var good := Good(d, authentic);
    DeltaMembers(p, q.vv);
    FilterMembers(Truncate(d), (x: Entry) => Acceptable(x, authentic));
    MergeWf(q, good);
    MergeIsUnion(q, good);
    MarkAfterMerge(q, good, e.origin);
    forall x | x in good && WellNamed(x) ensures x.id != e.id {
      assert x in d;
      if x.id == e.id {
        EntryIdInjective(x.origin, x.seqNo, e.origin, e.seqNo);
      }
    }
    assert e.id !in NamedIds(good);
  }

  lemma {:induction false} RoundsAreRoundsWith(q: Log, p: Log, authentic: Entry -> bool, n: nat)
    ensures Rounds(q, p, authentic, n) == RoundsWith(q, seq(n, _ => p), authentic)
  {
    hide Round;
    if n > 0 {
      RoundsAreRoundsWith(q, p, authentic, n - 1);
      assert seq(n, _ => p)[..n - 1] == seq(n - 1, _ => p);
    }
  }

  lemma OneUnseen(p: Log, q: Log, e: Entry, authentic: Entry -> bool)
    requires Wf(p) && Wf(q) && e in p.entries && WellNamed(e)
    requires e.id !in Ids(q.entries) && e.seqNo <= Mark(q.vv, e.origin)
    ensures !NoHole(q, p)
    ensures forall n: nat :: e in Unseen(p, Rounds(q, p, authentic, n))
  {
    hide Wf, Round;
    forall n: nat ensures e in Unseen(p, Rounds(q, p, authentic, n)) {
      RoundsAreRoundsWith(q, p, authentic, n);
      HoleIsPermanent(q, seq(n, _ => p), authentic, e);
    }
  }

  /** The smallest number of rounds that can carry `k` entries. */
  function RoundsFor(k: nat): nat {
    (k + MAX_ENTRIES_PER_DELTA - 1) / MAX_ENTRIES_PER_DELTA
  }

  /** Anti-entropy with an honest peer completes, and completes within the fewest
      rounds its truncation allows, if and only if the requester has no hole. */
  lemma SyncCompletesIffNoHole(q: Log, p: Log, authentic: Entry -> bool)
    requires Wf(p) && Wf(q) && ClockRises(p) && AllAcceptable(p, authentic)
    ensures NoHole(q, p) <==> exists n: nat :: Unseen(p, Rounds(q, p, authentic, n)) == {}
    ensures NoHole(q, p) ==> Unseen(p, Rounds(q, p, authentic, RoundsFor(|Unseen(p, q)|))) == {}
    ensures NoHole(q, p) ==> forall n: nat :: n < RoundsFor(|Unseen(p, q)|) ==>
        Unseen(p, Rounds(q, p, authentic, n)) != {}
  {
    if NoHole(q, p) {
      forall n: nat
        ensures Unseen(p, Rounds(q, p, authentic, n)) == {} <==> n >= RoundsFor(|Unseen(p, q)|)
      {
        RoundsProgress(q, p, authentic, n);
      }
      assert Unseen(p, Rounds(q, p, authentic, RoundsFor(|Unseen(p, q)|))) == {};
    } else {
      var e :| e in p.entries && e.id !in Ids(q.entries) && e.seqNo <= Mark(q.vv, e.origin);
      OneUnseen(p, q, e, authentic);
    }
  }

  /** A gap-free requester has no hole. */
  lemma GapFreeHasNoHole(q: Log, p: Log)
    requires Wf(q) && Wf(p) && GapFree(q) && GapFree(p)
    ensures NoHole(q, p)
  {
    forall e | e in p.entries && e.id !in Ids(q.entries) ensures e.seqNo > Mark(q.vv, e.origin) {
      if e.seqNo <= Mark(q.vv, e.origin) {
        var top :| top in q.entries && top.origin == e.origin && top.seqNo == q.vv[e.origin];
        assert Holds(q, e.origin, e.seqNo);
      }
    }
  }

  /** Between gap-free logs the delta is exactly what is missing, and as many rounds
      as the missing entries fill make the requester hold all that the responder holds. */
  lemma GapFreeLogsSync(q: Log, p: Log, authentic: Entry -> bool)
    requires Wf(q) && Wf(p) && GapFree(q) && GapFree(p) && ClockRises(p) && AllAcceptable(p, authentic)
    ensures forall e :: e in EntriesMissingFrom(p, q.vv) <==> e in Unseen(p, q)
    ensures Ids(p.entries) <= Ids(Rounds(q, p, authentic, RoundsFor(|Unseen(p, q)|)).entries)
  {
    GapFreeHasNoHole(q, p);
    DeltaIsTheUnseen(q, p);
    SyncCompletesIffNoHole(q, p, authentic);
    hide Wf, GapFree, NoHole, ClockRises, AllAcceptable, Rounds, RoundsFor;
    var r := Rounds(q, p, authentic, RoundsFor(|Unseen(p, q)|));
    forall e | e in p.entries ensures e.id in Ids(r.entries) {
      assert e !in Unseen(p, r);
    }
  }

  /** A truncated round leaves a gap-free requester gap-free. */
  lemma RoundKeepsGapFree(q: Log, p: Log, authentic: Entry -> bool)
    requires Wf(p) && Wf(q) && ClockRises(p) && AllAcceptable(p, authentic) && GapFree(q) && GapFree(p)
    ensures GapFree(Round(q, p, authentic))
  {
    GapFreeHasNoHole(q, p);
    RoundKeepsNoHole(q, p, authentic);
    var r := Round(q, p, authentic);
    RoundEntries(q, p, authentic);
    forall e | e in r.entries
      ensures e.seqNo >= 1 && forall s :: 1 <= s < e.seqNo ==> Holds(r, e.origin, s)
    {
      forall s | 1 <= s < e.seqNo ensures Holds(r, e.origin, s) {
        if e in q.entries {
          assert Holds(q, e.origin, s);
        } else {
          assert Holds(p, e.origin, s);
          NoHoleBelow(r, p, e, s);
        }
      }
    }
  }

  lemma RoundEntries(q: Log, p: Log, authentic: Entry -> bool)
    requires Wf(p) && AllAcceptable(p, authentic)
    ensures forall e :: e in Round(q, p, authentic).entries ==> e in q.entries || e in p.entries
    ensures forall e :: e in q.entries ==> e in Round(q, p, authentic).entries
  {
    RoundMergesTheHead(q, p, authentic);
    DeltaMembers(p, q.vv);
    MergeExtends(q, Truncate(EntriesMissingFrom(p, q.vv)));
  }

  lemma NoHoleBelow(r: Log, p: Log, e: Entry, s: int)
    requires Wf(r) && Wf(p) && NoHole(r, p) && e in r.entries && s < e.seqNo && Holds(p, e.origin, s)
    ensures Holds(r, e.origin, s)
  {
    var x :| x in p.entries && x.origin == e.origin && x.seqNo == s;
    assert x.id in Ids(r.entries);
    var y :| y in r.entries && y.id == x.id;
    EntryIdInjective(x.origin, x.seqNo, y.origin, y.seqNo);
  }

  /** Gossip alone opens holes: whenever a speaker says two things and a listener
      that lacks the first hears the second first, no number of sync rounds with
      the speaker brings the first. */
  lemma OvertakingOpensAHole(a: Log, b: Log, text1: string, text2: string, ts: int, authentic: Entry -> bool)
    requires Wf(a) && Wf(b)
    requires var e1 := MintedBy(a, "chat", text1, ts);
             e1.id !in Ids(b.entries) && authentic(MintedBy(Appended(a, "chat", text1, ts), "chat", text2, ts))
    ensures var spoken := Appended(Appended(a, "chat", text1, ts), "chat", text2, ts);
            var e1, e2 := MintedBy(a, "chat", text1, ts), MintedBy(Appended(a, "chat", text1, ts), "chat", text2, ts);
            var heard := Accepted(b, [e2], authentic);
            && e1 in spoken.entries && e2 in spoken.entries && !NoHole(heard, spoken)
            && forall n: nat :: e1 in Unseen(spoken, Rounds(heard, spoken, authentic, n))
  {
    var a1 := Appended(a, "chat", text1, ts);
    var spoken := Appended(a1, "chat", text2, ts);
    var e1, e2 := MintedBy(a, "chat", text1, ts), MintedBy(a1, "chat", text2, ts);
    AppendWf(a, "chat", text1, ts);
    AppendWf(a1, "chat", text2, ts);
    assert e1 in a1.entries && e1 in spoken.entries && e2 in spoken.entries;
    assert e2.origin == e1.origin && e2.seqNo == e1.seqNo + 1 && WellNamed(e1) && WellNamed(e2);
    hide Wf, WellNamed, Appended, MintedBy;
    assert e1.id in Ids(a1.entries);
    HearOne(b, e2, authentic);
    OneUnseen(spoken, Accepted(b, [e2], authentic), e1, authentic);
  }

  lemma HearOne(b: Log, e: Entry, authentic: Entry -> bool)
    requires Wf(b) && Acceptable(e, authentic)
    ensures var heard := Accepted(b, [e], authentic);
            && Wf(heard) && e.seqNo <= Mark(heard.vv, e.origin)
            && Ids(heard.entries) == Ids(b.entries) + {e.id}
  {
    FilterAll([e], (x: Entry) => Acceptable(x, authentic));
    MergeWf(b, [e]);
    MergeIsUnion(b, [e]);
    assert NamedIds([e]) == {e.id};
    var heard := Merged(b, [e]);
    assert e.id in Ids(heard.entries);
    var x :| x in heard.entries && x.id == e.id;
    EntryIdInjective(x.origin, x.seqNo, e.origin, e.seqNo);
  }
}
