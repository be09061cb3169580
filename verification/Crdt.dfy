/** The chat log: a grow-only set of entries with a Lamport order and a
    per-origin version vector. */
module Crdt {
  import opened Basics
  import opened Ordering

  // ---------------------------------------------------------------- entry ids

  function Digit(d: nat): char
    requires d < 10
  {
    ['0', '1', '2', '3', '4', '5', '6', '7', '8', '9'][d]
  }

  function Decimal(n: nat): string {
    if n < 10 then [Digit(n)] else Decimal(n / 10) + [Digit(n % 10)]
  }

  /** A number as a template literal renders it. */
  function Render(i: int): string {
    if i < 0 then "-" + Decimal(-i) else Decimal(i)
  }

  function EntryId(origin: string, seqNo: int): string {
    origin + ":" + Render(seqNo)
  }

  lemma {:induction false} DecimalDigits(n: nat)
    ensures |Decimal(n)| > 0
    ensures forall k :: 0 <= k < |Decimal(n)| ==> '0' <= Decimal(n)[k] <= '9'
  {
    if n >= 10 {
      DecimalDigits(n / 10);
    }
  }

  lemma {:induction false} DecimalInjective(m: nat, n: nat)
    requires Decimal(m) == Decimal(n)
    ensures m == n
  {
    var s := Decimal(m);
    if m >= 10 {
      DecimalDigits(m / 10);
    }
    if n >= 10 {
      DecimalDigits(n / 10);
    }
    assert m >= 10 <==> |s| > 1;
    assert n >= 10 <==> |s| > 1;
    if |s| > 1 {
      assert Decimal(m / 10) == s[..|s| - 1] == Decimal(n / 10);
      DecimalInjective(m / 10, n / 10);
    }
    assert s[|s| - 1] == Digit(m % 10) == Digit(n % 10);
  }

  lemma RenderInjective(i: int, j: int)
    requires Render(i) == Render(j)
    ensures i == j
  {
    var m, n := if i < 0 then -i else i, if j < 0 then -j else j;
    DecimalDigits(m);
    DecimalDigits(n);
    if i < 0 {
      assert Render(i)[0] == '-' && Render(i)[1..] == Decimal(m);
    }
    if j < 0 {
      assert Render(j)[0] == '-' && Render(j)[1..] == Decimal(n);
    }
    assert Decimal(m) == Decimal(n);
    DecimalInjective(m, n);
  }

  lemma RenderHasNoColon(i: int)
    ensures ':' !in Render(i)
  {
    DecimalDigits(if i < 0 then -i else i);
  }

  /** Even an origin that itself contains colons cannot forge another origin's id:
      the id names one origin and one sequence number. */
  lemma EntryIdInjective(o1: string, s1: int, o2: string, s2: int)
    requires EntryId(o1, s1) == EntryId(o2, s2)
    ensures o1 == o2 && s1 == s2
  {
    var r1, r2 := Render(s1), Render(s2);
    var id := EntryId(o1, s1);
    RenderHasNoColon(s1);
    RenderHasNoColon(s2);
    LastColon(o1, r1);
    LastColon(o2, r2);
    assert |o1| == |o2|;
    assert o1 == id[..|o1|] == o2;
    assert r1 == id[|o1| + 1..] == r2;
    RenderInjective(s1, s2);
  }

  lemma LastColon(o: string, r: string)
    requires ':' !in r
    ensures var id := o + ":" + r;
            id[|o|] == ':' && forall k :: |o| < k < |id| ==> id[k] != ':'
  {
    var id := o + ":" + r;
    forall k | |o| < k < |id| ensures id[k] != ':' {
      assert id[k] == r[k - |o| - 1];
    }
  }

  /** `<node_id>` or `<node_id>.<epoch>` names the node before the first dot. */
  function ReplicaNodeId(replica: string): (node: string)
    ensures '.' !in node && node <= replica
    ensures node == replica || replica[|node|] == '.'
  {
    if |replica| == 0 || replica[0] == '.' then "" else [replica[0]] + ReplicaNodeId(replica[1..])
  }

  // ------------------------------------------------------------- log contents

  datatype Entry = Entry(id: string, origin: string, seqNo: int, lamport: int, ts: int, kind: string, data: string)

  type VersionVector = map<string, int>

  /** The contents of a log; `entries` is the id-keyed table in insertion order. */
  datatype Log = Log(origin: string, entries: seq<Entry>, vv: VersionVector, lamport: int)

  function Ids(entries: seq<Entry>): set<string> {
    set e | e in entries :: e.id
  }

  predicate WellNamed(e: Entry) {
    e.id == EntryId(e.origin, e.seqNo)
  }

  function Mark(vv: VersionVector, origin: string): int {
    if origin in vv then vv[origin] else 0
  }

  function Empty(origin: string): Log {
    Log(origin, [], map[], 0)
  }

  function MintedBy(log: Log, kind: string, data: string, ts: int): Entry {
    var seqNo := Mark(log.vv, log.origin) + 1;
    Entry(EntryId(log.origin, seqNo), log.origin, seqNo, log.lamport + 1, ts, kind, data)
  }

  function Appended(log: Log, kind: string, data: string, ts: int): Log {
    var e := MintedBy(log, kind, data, ts);
    Log(log.origin, log.entries + [e], log.vv[e.origin := e.seqNo], e.lamport)
  }

  predicate Takes(log: Log, e: Entry) {
    e.id !in Ids(log.entries) && WellNamed(e)
  }

  function MergeOne(log: Log, e: Entry): Log {
    if !Takes(log, e) then log else
      Log(log.origin, log.entries + [e],
          if e.seqNo > Mark(log.vv, e.origin) then log.vv[e.origin := e.seqNo] else log.vv,
          Max(log.lamport, e.lamport))
  }

  function Merged(log: Log, remote: seq<Entry>): Log {
    if |remote| == 0 then log else MergeOne(Merged(log, remote[..|remote| - 1]), remote[|remote| - 1])
  }

  predicate Before(a: Entry, b: Entry) {
    a.lamport < b.lamport || (a.lamport == b.lamport && StrLess(a.id, b.id))
  }

  function Ordered(log: Log): seq<Entry> {
    Sort(log.entries, Before)
  }

  function EntriesMissingFrom(log: Log, remote: VersionVector): seq<Entry> {
    Filter(Ordered(log), (e: Entry) => e.seqNo > Mark(remote, e.origin))
  }

  function Reloaded(origin: string, entries: seq<Entry>): Log {
    Merged(Empty(origin), entries)
  }

  // -------------------------------------------------------------- invariant

  ghost predicate DistinctIds(entries: seq<Entry>) {
    forall i, j :: 0 <= i < j < |entries| ==> entries[i].id != entries[j].id
  }

  ghost predicate WithinMarks(log: Log) {
    forall e :: e in log.entries ==> WellNamed(e) && e.seqNo <= Mark(log.vv, e.origin) && e.lamport <= log.lamport
  }

  ghost predicate MarksReached(log: Log) {
    forall o :: o in log.vv ==> log.vv[o] > 0 && exists e :: e in log.entries && e.origin == o && e.seqNo == log.vv[o]
  }

  ghost predicate ClockReached(log: Log) {
    log.lamport >= 0 && (log.lamport > 0 ==> exists e :: e in log.entries && e.lamport == log.lamport)
  }

  /** The marks are exactly the highest sequence numbers present, and the clock
      is exactly the highest Lamport time present. */
  ghost predicate Wf(log: Log) {
    DistinctIds(log.entries) && WithinMarks(log) && MarksReached(log) && ClockReached(log)
  }

  lemma SameIdSameEntry(log: Log, a: Entry, b: Entry)
    requires Wf(log) && a in log.entries && b in log.entries && a.id == b.id
    ensures a == b
  {
  }

  lemma ExtendWf(log: Log, e: Entry, vv: VersionVector)
    requires Wf(log) && Takes(log, e)
    requires vv == if e.seqNo > Mark(log.vv, e.origin) then log.vv[e.origin := e.seqNo] else log.vv
    ensures Wf(Log(log.origin, log.entries + [e], vv, Max(log.lamport, e.lamport)))
  {
    var after := Log(log.origin, log.entries + [e], vv, Max(log.lamport, e.lamport));
    ExtendIds(log.entries, e);
    ExtendBounds(log, after, e);
    ExtendMarks(log, after, e);
    ExtendClock(log, after, e);
    hide DistinctIds, WithinMarks, MarksReached, ClockReached, Takes;
  }

  lemma ExtendBounds(log: Log, after: Log, e: Entry)
    requires WithinMarks(log) && WellNamed(e)
    requires after.entries == log.entries + [e] && after.lamport == Max(log.lamport, e.lamport)
    requires after.vv == if e.seqNo > Mark(log.vv, e.origin) then log.vv[e.origin := e.seqNo] else log.vv
    ensures WithinMarks(after)
  {
    hide WellNamed;
    assert forall x :: x in after.entries <==> x in log.entries || x == e;
  }

  lemma ExtendIds(entries: seq<Entry>, e: Entry)
    requires DistinctIds(entries) && e.id !in Ids(entries)
    ensures DistinctIds(entries + [e])
  {
    assert forall k :: 0 <= k < |entries| ==> entries[k].id in Ids(entries);
  }

  lemma ExtendClock(log: Log, after: Log, e: Entry)
    requires ClockReached(log) && after.entries == log.entries + [e] && after.lamport == Max(log.lamport, e.lamport)
    ensures ClockReached(after)
  {
    assert forall x :: x in after.entries <==> x in log.entries || x == e;
    assert e in after.entries;
    if log.lamport > 0 {
      var x :| x in log.entries && x.lamport == log.lamport;
      assert x in after.entries;
    }
  }

  lemma ExtendMarks(log: Log, after: Log, e: Entry)
    requires MarksReached(log) && after.entries == log.entries + [e]
    requires after.vv == if e.seqNo > Mark(log.vv, e.origin) then log.vv[e.origin := e.seqNo] else log.vv
    ensures MarksReached(after)
  {
    assert forall x :: x in after.entries <==> x in log.entries || x == e;
    assert e in after.entries;
    forall o | o in after.vv
      ensures after.vv[o] > 0 && exists x :: x in after.entries && x.origin == o && x.seqNo == after.vv[o]
    {
      if !(o == e.origin && e.seqNo > Mark(log.vv, o)) {
        var x :| x in log.entries && x.origin == o && x.seqNo == log.vv[o];
        assert x in after.entries;
      }
    }
  }

  /** Appending mints an id that the log has never held, so the table only grows. */
  lemma AppendWf(log: Log, kind: string, data: string, ts: int)
    requires Wf(log)
    ensures Wf(Appended(log, kind, data, ts))
    ensures MintedBy(log, kind, data, ts).id !in Ids(log.entries)
    ensures forall e :: e in log.entries ==> e.lamport < MintedBy(log, kind, data, ts).lamport
  {
    var e := MintedBy(log, kind, data, ts);
    forall x | x in log.entries ensures x.id != e.id {
      if x.id == e.id {
        EntryIdInjective(x.origin, x.seqNo, e.origin, e.seqNo);
      }
    }
    assert Mark(log.vv, log.origin) >= 0;
    ExtendWf(log, e, log.vv[e.origin := e.seqNo]);
  }

  /** The new entry has the given content, is numbered one above the own entries, and is one
      tick later than everything held. */
  lemma AppendMints(log: Log, kind: string, data: string, ts: int)
    requires Wf(log)
    ensures var e := MintedBy(log, kind, data, ts);
            && e.origin == log.origin && e.kind == kind && e.data == data && e.ts == ts
            && e.id == EntryId(e.origin, e.seqNo) && e.seqNo >= 1 && e.lamport == log.lamport + 1
            && (forall x :: x in log.entries && x.origin == log.origin ==> x.seqNo < e.seqNo)
            && (e.seqNo == 1 || exists x :: x in log.entries && x.origin == log.origin && x.seqNo == e.seqNo - 1)
            && Appended(log, kind, data, ts).entries == log.entries + [e]
  {
  }

  lemma {:induction false} MergeWf(log: Log, remote: seq<Entry>)
    requires Wf(log)
    ensures Wf(Merged(log, remote))
  {
    if |remote| > 0 {
      var rest := remote[..|remote| - 1];
      var e := remote[|remote| - 1];
      MergeWf(log, rest);
      if Takes(Merged(log, rest), e) {
        ExtendWf(Merged(log, rest), e, Merged(log, remote).vv);
      }
    }
  }

  lemma EmptyWf(origin: string)
    ensures Wf(Empty(origin))
  {
  }

  // ---------------------------------------------------------- what a merge does

  /** The ids of the entries of `remote` that carry their own name. */
  function NamedIds(remote: seq<Entry>): set<string> {
    set e | e in remote && WellNamed(e) :: e.id
  }

  /** A merge is a set union on ids. */
  lemma {:induction false} MergeIsUnion(log: Log, remote: seq<Entry>)
    ensures Ids(Merged(log, remote).entries) == Ids(log.entries) + NamedIds(remote)
  {
    hide WellNamed;
    if |remote| > 0 {
      var rest := remote[..|remote| - 1];
      var e := remote[|remote| - 1];
      MergeIsUnion(log, rest);
      NamedIdsOfConcat(rest, e);
      assert remote == rest + [e];
      IdsOfConcat(Merged(log, rest).entries, [e]);
    }
  }

  lemma NamedIdsOfConcat(rest: seq<Entry>, e: Entry)
    ensures NamedIds(rest + [e]) == NamedIds(rest) + if WellNamed(e) then {e.id} else {}
  {
  }

  lemma IdsOfConcat(a: seq<Entry>, b: seq<Entry>)
    ensures Ids(a + b) == Ids(a) + Ids(b)
  {
  }

  /** A merge keeps what was there and takes the rest from the batch. */
  lemma {:induction false} MergeExtends(log: Log, remote: seq<Entry>)
    ensures log.entries <= Merged(log, remote).entries
    ensures forall e :: e in Merged(log, remote).entries ==> e in log.entries || e in remote
    ensures Merged(log, remote).origin == log.origin
    ensures Merged(log, remote).lamport >= log.lamport
    ensures |Merged(log, remote).entries| <= |log.entries| + |remote|
  {
    if |remote| > 0 {
      MergeExtends(log, remote[..|remote| - 1]);
      assert remote == remote[..|remote| - 1] + [remote[|remote| - 1]];
    }
  }

  /** What a merge reports as new. */
  function Added(log: Log, remote: seq<Entry>): seq<Entry> {
    MergeExtends(log, remote);
    Merged(log, remote).entries[|log.entries|..]
  }

  /** What a merge reports as new is new: ids absent before, each once, from the batch. */
  lemma MergeReportsTheNew(log: Log, remote: seq<Entry>)
    requires Wf(log)
    ensures Merged(log, remote).entries == log.entries + Added(log, remote)
    ensures Ids(Added(log, remote)) == NamedIds(remote) - Ids(log.entries)
    ensures forall e :: e in Added(log, remote) ==> e in remote && WellNamed(e)
    ensures DistinctIds(Added(log, remote)) && |Added(log, remote)| <= |remote|
  {
    MergeIsUnion(log, remote);
    MergeExtends(log, remote);
    MergeWf(log, remote);
    var after, added := Merged(log, remote).entries, Added(log, remote);
    assert after == log.entries + added;
    IdsOfConcat(log.entries, added);
    forall k | 0 <= k < |added| ensures added[k].id !in Ids(log.entries) && added[k] in remote {
      assert added[k] == after[|log.entries| + k];
      assert forall j :: 0 <= j < |log.entries| ==> after[j].id != added[k].id;
    }
  }

  /** Receiving a batch again changes nothing. */
  lemma MergeIdempotent(log: Log, remote: seq<Entry>)
    ensures Merged(Merged(log, remote), remote) == Merged(log, remote)
  {
    MergeIsUnion(log, remote);
    MergeNothingNew(Merged(log, remote), remote);
  }

  lemma {:induction false} MergeNothingNew(log: Log, remote: seq<Entry>)
    requires NamedIds(remote) <= Ids(log.entries)
    ensures Merged(log, remote) == log
  {
    if |remote| > 0 {
      var rest := remote[..|remote| - 1];
      var e := remote[|remote| - 1];
      assert remote == rest + [e];
      MergeNothingNew(log, rest);
      if WellNamed(e) {
        assert e.id in NamedIds(remote);
      }
    }
  }

  // --------------------------------------------------------------- the order

  lemma BeforeIsOrder()
    ensures StrictWeakOrder(Before)
  {
    forall a: Entry ensures !Before(a, a) {
      StrLessTrichotomy(a.id, a.id);
    }
    forall a: Entry, b: Entry, c: Entry | Before(a, b) && Before(b, c) ensures Before(a, c) {
      if a.lamport == b.lamport == c.lamport {
        StrLessTransitive(a.id, b.id, c.id);
      }
    }
    forall a: Entry, b: Entry, c: Entry | Before(a, c) ensures Before(a, b) || Before(b, c) {
      if a.lamport == b.lamport == c.lamport {
        StrLessTrichotomy(a.id, b.id);
        if StrLess(b.id, a.id) {
          StrLessTransitive(b.id, a.id, c.id);
        }
      }
    }
  }

  lemma DistinctIdsNeverTie(entries: seq<Entry>)
    requires DistinctIds(entries)
    ensures NoTies(entries, Before) && Distinct(entries)
  {
    forall x, y | x in entries && y in entries && x != y ensures Before(x, y) || Before(y, x) {
      StrLessTrichotomy(x.id, y.id);
    }
  }

  lemma OrderedContents(log: Log)
    requires Wf(log)
    ensures Sorted(Ordered(log), Before) && Distinct(Ordered(log)) && Rising(Ordered(log))
    ensures forall e :: e in Ordered(log) <==> e in log.entries
  {
    BeforeIsOrder();
    SortSorted(log.entries, Before);
    SortContents(log.entries, Before);
    DistinctIdsNeverTie(log.entries);
    SortDistinct(log.entries, Before);
    SortedIsRising(log, Ordered(log));
  }

  /** By Lamport time, and by id where these agree. */
  ghost predicate Rising(entries: seq<Entry>) {
    forall i, j :: 0 <= i < j < |entries| ==>
      || entries[i].lamport < entries[j].lamport
      || (entries[i].lamport == entries[j].lamport && StrLess(entries[i].id, entries[j].id))
  }

  lemma SortedIsRising(log: Log, entries: seq<Entry>)
    requires Wf(log) && Sorted(entries, Before) && Distinct(entries) && forall e :: e in entries ==> e in log.entries
    ensures Rising(entries)
  {
    forall i, j | 0 <= i < j < |entries|
      ensures entries[i].lamport < entries[j].lamport
              || (entries[i].lamport == entries[j].lamport && StrLess(entries[i].id, entries[j].id))
    {
      assert entries[i] in entries && entries[j] in entries;
      StrLessTrichotomy(entries[i].id, entries[j].id);
      if entries[i].id == entries[j].id {
        SameIdSameEntry(log, entries[i], entries[j]);
      }
      hide Wf, StrLess;
    }
  }

  /** A delta is exactly the entries above the marks, each once, in the log's order. */
  lemma DeltaMembers(p: Log, vv: VersionVector)
    requires Wf(p)
    ensures var d := EntriesMissingFrom(p, vv);
            && (forall e :: e in d <==> e in p.entries && e.seqNo > if e.origin in vv then vv[e.origin] else 0)
            && Sorted(d, Before) && Distinct(d) && Rising(d)
  {
    OrderedContents(p);
    FilterMembers(Ordered(p), (e: Entry) => e.seqNo > Mark(vv, e.origin));
    FilterSorted(Ordered(p), (e: Entry) => e.seqNo > Mark(vv, e.origin), Before);
    FilterDistinct(Ordered(p), (e: Entry) => e.seqNo > Mark(vv, e.origin));
    SortedIsRising(p, EntriesMissingFrom(p, vv));
  }

  /** Replicas holding the same entries show the same conversation, whatever
      order the entries arrived in. */
  lemma SameEntriesSameOrder(a: Log, b: Log)
    requires Wf(a) && Wf(b)
    requires forall e :: e in a.entries <==> e in b.entries
    ensures Ordered(a) == Ordered(b)
  {
    BeforeIsOrder();
    DistinctIdsNeverTie(a.entries);
    DistinctIdsNeverTie(b.entries);
    SameMembers(a.entries, b.entries);
    SortIgnoresInputOrder(a.entries, b.entries, Before);
  }

  lemma SameEntriesSameMark(a: Log, b: Log, o: string)
    requires Wf(a) && Wf(b)
    requires forall e :: e in a.entries ==> e in b.entries
    ensures Mark(a.vv, o) <= Mark(b.vv, o)
  {
    if o in a.vv {
      var e :| e in a.entries && e.origin == o && e.seqNo == a.vv[o];
    } else if o in b.vv {
      assert b.vv[o] > 0;
    }
  }

  /** Two well-formed logs with the same entries have the same vector and clock. */
  lemma SameEntriesSameClock(a: Log, b: Log)
    requires Wf(a) && Wf(b)
    requires forall e :: e in a.entries <==> e in b.entries
    ensures a.vv == b.vv && a.lamport == b.lamport
  {
    forall o ensures Mark(a.vv, o) == Mark(b.vv, o) && (o in a.vv <==> o in b.vv) {
      SameEntriesSameMark(a, b, o);
      SameEntriesSameMark(b, a, o);
      assert o in a.vv ==> a.vv[o] > 0;
      assert o in b.vv ==> b.vv[o] > 0;
    }
    assert a.vv.Keys == b.vv.Keys;
    forall o | o in a.vv ensures a.vv[o] == b.vv[o] {
      assert Mark(a.vv, o) == Mark(b.vv, o);
    }
  }

  /** Saving and reloading a log restores its entries, vector, clock and order;
      only the insertion order is replaced by the sorted one. */
  lemma RehydrationRestores(log: Log)
    requires Wf(log)
    ensures var r := Reloaded(log.origin, Ordered(log));
            && Wf(r)
            && (forall e :: e in r.entries <==> e in log.entries)
            && r.vv == log.vv && r.lamport == log.lamport && Ordered(r) == Ordered(log)
  {
    OrderedContents(log);
    EmptyWf(log.origin);
    ReloadRestores(log.origin, Ordered(log), log);
  }

  lemma ReloadRestores(origin: string, saved: seq<Entry>, log: Log)
    requires Wf(log)
    requires forall e :: e in saved <==> e in log.entries
    ensures var r := Reloaded(origin, saved);
            && Wf(r)
            && (forall e :: e in r.entries <==> e in log.entries)
            && r.vv == log.vv && r.lamport == log.lamport && Ordered(r) == Ordered(log)
  {
    var r := Reloaded(origin, saved);
    MergeIsUnion(Empty(origin), saved);
    MergeExtends(Empty(origin), saved);
    EmptyWf(origin);
    MergeWf(Empty(origin), saved);
    forall e | e in log.entries ensures e in r.entries {
      assert e.id in NamedIds(saved);
      assert e.id in Ids(r.entries);
      var x :| x in r.entries && x.id == e.id;
      SameIdSameEntry(log, x, e);
    }
    SameEntriesSameClock(r, log);
    SameEntriesSameOrder(r, log);
  }

  // -------------------------------------------------------------- the class

  class GSetLog {
    const origin: string
    var entries: seq<Entry>
    var vv: VersionVector
    var lamport: int

    ghost function View(): Log
      reads this
    {
      Log(origin, entries, vv, lamport)
    }

    ghost predicate Valid()
      reads this
    {
      Wf(View())
    }

    constructor (origin: string)
      ensures Valid() && View() == Empty(origin)
    {
      this.origin := origin;
      entries, vv, lamport := [], map[], 0;
    }

    method Append(kind: string, data: string, ts: int) returns (entry: Entry)
      requires Valid()
      modifies this
      ensures Valid() && View() == Appended(old(View()), kind, data, ts)
      ensures entry == MintedBy(old(View()), kind, data, ts)
      ensures entry.id !in Ids(old(entries)) && (forall e :: e in old(entries) ==> e.lamport < entry.lamport)
      ensures entry.origin == origin && entry.kind == kind && entry.data == data && entry.ts == ts
      ensures entry.id == EntryId(entry.origin, entry.seqNo) && entries == old(entries) + [entry]
    {
      hide Wf;
      AppendWf(View(), kind, data, ts);
      lamport := lamport + 1;
      var seqNo := (if origin in vv then vv[origin] else 0) + 1;
      entry := Entry(EntryId(origin, seqNo), origin, seqNo, lamport, ts, kind, data);
      entries := entries + [entry];
      vv := vv[origin := seqNo];
    }

    method Merge(remote: seq<Entry>) returns (added: seq<Entry>)
      requires Valid()
      modifies this
      ensures Valid() && View() == Merged(old(View()), remote)
      ensures entries == old(entries) + added
      ensures Ids(added) == NamedIds(remote) - Ids(old(entries))
    {
      hide Wf, WellNamed;
      added := [];
      for i := 0 to |remote|
        invariant View() == Merged(old(View()), remote[..i])
        invariant entries == old(entries) + added
      {
        var entry := remote[i];
        assert remote[..i + 1][..i] == remote[..i];
        if entry.id in Ids(entries) {
          continue;
        }
        if !WellNamed(entry) {
          continue;
        }
        entries := entries + [entry];
        if entry.lamport > lamport {
          lamport := entry.lamport;
        }
        if entry.seqNo > (if entry.origin in vv then vv[entry.origin] else 0) {
          vv := vv[entry.origin := entry.seqNo];
        }
        added := added + [entry];
      }
      assert remote[..|remote|] == remote;
      MergeWf(old(View()), remote);
      MergeReportsTheNew(old(View()), remote);
    }

    method MissingFrom(remote: VersionVector) returns (delta: seq<Entry>)
      requires Valid()
      ensures delta == EntriesMissingFrom(View(), remote)
      ensures Rising(delta) && Distinct(delta)
      ensures forall e :: e in delta <==> e in entries && e.seqNo > if e.origin in remote then remote[e.origin] else 0
    {
      DeltaMembers(View(), remote);
      hide Wf, Before;
      delta := Filter(Sort(entries, Before), (e: Entry) => e.seqNo > Mark(remote, e.origin));
    }

    method ToJson() returns (saved: seq<Entry>)
      requires Valid()
      ensures saved == Ordered(View()) && Rising(saved)
      ensures forall e :: e in saved <==> e in entries
    {
      OrderedContents(View());
      hide Wf;
      saved := Sort(entries, Before);
    }

    static method FromJson(origin: string, saved: seq<Entry>) returns (log: GSetLog)
      ensures fresh(log) && log.Valid() && log.View() == Reloaded(origin, saved)
    {
      log := new GSetLog(origin);
      var _ := log.Merge(saved);
    }
  }
}
