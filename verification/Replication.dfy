/** Many replicas of one chat log over a network that may lose, repeat, reorder
    and forge messages, with saving and restarting: what every reachable state
    keeps, and which restarts break it. */
module Replication {
  import opened Ordering
  import opened Crdt
  import opened Conversation
  import opened AntiEntropy

  /** Replicas are keyed by their epoch-suffixed origin. `wire` holds every entry
      ever sent; `heard` records, for the newest minting of each id, what its
      author held at that moment. */
  datatype System = System(logs: map<string, Log>, disk: map<string, seq<Entry>>,
                           wire: set<Entry>, heard: map<string, set<Entry>>)

  datatype Step =
    | Append(r: string, kind: string, data: string, ts: int)
    | Persist(r: string)
    | Send(r: string, entries: seq<Entry>)
    | Deliver(r: string, batch: seq<Entry>)
    | Restart(r: string)

  /** Messages may hold anything, but signatures cannot be forged: what passes the
      receiver's checks was sent by somebody. */
  ghost predicate Enabled(s: System, step: Step, authentic: Entry -> bool) {
    && step.r in s.logs && step.r in s.disk
    && match step
       case Send(r, entries) => forall e :: e in entries ==> e in s.logs[r].entries
       case Deliver(_, batch) => forall e :: e in batch && Acceptable(e, authentic) ==> e in s.wire
       case _ => true
  }

  ghost function Apply(s: System, step: Step, authentic: Entry -> bool): System
    requires Enabled(s, step, authentic)
  {
    match step
    case Append(r, kind, data, ts) =>
      var e := MintedBy(s.logs[r], kind, data, ts);
      s.(logs := s.logs[r := Appended(s.logs[r], kind, data, ts)],
         heard := s.heard[e.id := set x | x in s.logs[r].entries])
    case Persist(r) => s.(disk := s.disk[r := Ordered(s.logs[r])])
    case Send(_, entries) => s.(wire := s.wire + set e | e in entries)
    case Deliver(r, batch) => s.(logs := s.logs[r := Accepted(s.logs[r], batch, authentic)])
    case Restart(r) => s.(logs := s.logs[r := Reloaded(r, s.disk[r])])
  }

  /** The store holds every entry of its own that has left the replica. */
  ghost predicate StoreCoversSent(s: System, r: string) {
    r in s.disk && forall e :: e in s.wire && e.origin == r ==> e in s.disk[r]
  }

  ghost predicate Careful(s: System, step: Step) {
    step.Restart? ==> StoreCoversSent(s, step.r)
  }

  /** A run whose restarts happen only where the store covers what was sent. */
  ghost predicate CarefulRun(s: System, steps: seq<Step>, authentic: Entry -> bool)
    decreases |steps|
  {
    |steps| == 0 || (&& Enabled(s, steps[0], authentic) && Careful(s, steps[0])
                     && CarefulRun(Apply(s, steps[0], authentic), steps[1..], authentic))
  }

  ghost function After(s: System, steps: seq<Step>, authentic: Entry -> bool): System
    requires CarefulRun(s, steps, authentic)
    decreases |steps|
  {
    if |steps| == 0 then s else After(Apply(s, steps[0], authentic), steps[1..], authentic)
  }

  ghost predicate Initial(s: System) {
    && s.logs.Keys == s.disk.Keys && s.wire == {}
    && forall r :: r in s.logs ==> s.logs[r] == Empty(r) && s.disk[r] == []
  }

  // -------------------------------------------------------------- invariant

  ghost predicate Shape(s: System) {
    && s.logs.Keys == s.disk.Keys
    && forall r :: r in s.logs ==> s.logs[r].origin == r && Wf(s.logs[r])
  }

  /** Everything sent is still held by its author. */
  ghost predicate AuthorsRemember(s: System) {
    forall e :: e in s.wire ==> e.origin in s.logs && e in s.logs[e.origin].entries
  }

  ghost predicate ForeignWasSent(s: System) {
    forall r, e :: r in s.logs && e in s.logs[r].entries && e.origin != r ==> e in s.wire
  }

  /** A store is an older picture of the log, complete up to its newest own entry. */
  ghost predicate StoreIsPast(s: System) {
    forall r :: r in s.disk && r in s.logs ==>
      && (forall d :: d in s.disk[r] ==> d in s.logs[r].entries)
      && (forall d, e :: (d in s.disk[r] && e in s.logs[r].entries && d.origin == r == e.origin && e.seqNo <= d.seqNo)
                         ==> e in s.disk[r])
  }

  /** An author's Lamport times rise with its sequence numbers, and exceed those
      of everything it held when it wrote. */
  ghost predicate AuthorsAreCausal(s: System) {
    forall r, e :: r in s.logs && e in s.logs[r].entries && e.origin == r ==>
      && e.seqNo >= 1 && e.id in s.heard
      && (forall d :: d in s.heard[e.id] ==> d.lamport < e.lamport)
      && (forall f :: f in s.logs[r].entries && f.origin == r && f.seqNo < e.seqNo ==> f.lamport < e.lamport)
  }

  ghost predicate Inv(s: System) {
    Shape(s) && AuthorsRemember(s) && ForeignWasSent(s) && StoreIsPast(s) && AuthorsAreCausal(s)
  }

  /** Somewhere in a log, on a store or on the wire. */
  ghost predicate Present(s: System, e: Entry) {
    || e in s.wire
    || (exists r :: r in s.logs && e in s.logs[r].entries)
    || (exists r :: r in s.disk && e in s.disk[r])
  }

  ghost predicate OneEntryPerId(s: System) {
    forall a, b :: Present(s, a) && Present(s, b) && a.id == b.id ==> a == b
  }

  /** Every copy of an entry is backed by its author's own log. */
  lemma PresentAtAuthor(s: System, e: Entry)
    requires Inv(s) && Present(s, e)
    ensures e.origin in s.logs && e in s.logs[e.origin].entries && WellNamed(e)
  {
  }

  lemma IdsAreUnique(s: System)
    requires Inv(s)
    ensures OneEntryPerId(s)
  {
    forall a, b | Present(s, a) && Present(s, b) && a.id == b.id ensures a == b {
      PresentAtAuthor(s, a);
      PresentAtAuthor(s, b);
      EntryIdInjective(a.origin, a.seqNo, b.origin, b.seqNo);
      SameIdSameEntry(s.logs[a.origin], a, b);
    }
  }

  // ------------------------------------------------------------ preservation

  lemma InitialInv(s: System)
    requires Initial(s)
    ensures Inv(s)
  {
    forall r | r in s.logs ensures Wf(s.logs[r]) {
      EmptyWf(r);
    }
  }

  ghost predicate Extends(log: Log, e: Entry, log': Log) {
    && Wf(log') && log'.origin == log.origin == e.origin && WellNamed(e) && e.seqNo >= 1
    && (forall x :: x in log'.entries <==> x in log.entries || x == e)
    && (forall x :: x in log.entries ==> x.id != e.id && x.lamport < e.lamport)
    && (forall x :: x in log.entries && x.origin == e.origin ==> x.seqNo < e.seqNo)
  }

  lemma AppendFacts(log: Log, kind: string, data: string, ts: int)
    requires Wf(log)
    ensures Extends(log, MintedBy(log, kind, data, ts), Appended(log, kind, data, ts))
  {
    AppendWf(log, kind, data, ts);
    assert forall x :: x in log.entries ==> x.id in Ids(log.entries);
  }

  lemma ExtendedLogKeepsInv(s: System, r: string, e: Entry, log': Log, held: set<Entry>)
    requires Inv(s) && r in s.logs && Extends(s.logs[r], e, log')
    requires forall x :: x in held ==> x in s.logs[r].entries
    ensures Inv(s.(logs := s.logs[r := log'], heard := s.heard[e.id := held]))
  {
    hide Wf;
    var s' := s.(logs := s.logs[r := log'], heard := s.heard[e.id := held]);
    assert Shape(s') by { hide AuthorsRemember, ForeignWasSent, StoreIsPast, AuthorsAreCausal; }
    assert AuthorsRemember(s') by { hide ForeignWasSent, StoreIsPast, AuthorsAreCausal; }
    assert ForeignWasSent(s') by { hide AuthorsRemember, StoreIsPast, AuthorsAreCausal; }
    assert StoreIsPast(s') by { hide AuthorsRemember, ForeignWasSent, AuthorsAreCausal; }
    ExtendedIsCausal(s, r, e, log', held);
    hide Shape, AuthorsRemember, ForeignWasSent, StoreIsPast, AuthorsAreCausal;
  }

  lemma ExtendedIsCausal(s: System, r: string, e: Entry, log': Log, held: set<Entry>)
    requires Shape(s) && AuthorsAreCausal(s) && r in s.logs && Extends(s.logs[r], e, log')
    requires forall x :: x in held ==> x in s.logs[r].entries
    ensures AuthorsAreCausal(s.(logs := s.logs[r := log'], heard := s.heard[e.id := held]))
  {
    hide Wf;
    FreshEverywhere(s, r, e);
    hide WellNamed;
  }

  lemma AppendKeepsInv(s: System, step: Step, authentic: Entry -> bool)
    requires Inv(s) && step.Append? && Enabled(s, step, authentic)
    ensures Inv(Apply(s, step, authentic))
  {
    var log := s.logs[step.r];
    var e := MintedBy(log, step.kind, step.data, step.ts);
    AppendFacts(log, step.kind, step.data, step.ts);
    hide Wf, MintedBy, Appended, AuthorsRemember, ForeignWasSent, StoreIsPast, AuthorsAreCausal, Extends;
    ExtendedLogKeepsInv(s, step.r, e, Appended(log, step.kind, step.data, step.ts), set x | x in log.entries);
  }

  lemma FreshEverywhere(s: System, r: string, e: Entry)
    requires Shape(s) && r in s.logs && WellNamed(e) && e.origin == r
    requires forall x :: x in s.logs[r].entries ==> x.id != e.id
    ensures forall q, x :: q in s.logs && x in s.logs[q].entries && x.origin == q ==> x.id != e.id
  {
    forall q, x | q in s.logs && x in s.logs[q].entries && x.origin == q ensures x.id != e.id {
      if x.id == e.id {
        EntryIdInjective(x.origin, x.seqNo, e.origin, e.seqNo);
      }
    }
  }

  lemma PersistKeepsInv(s: System, step: Step, authentic: Entry -> bool)
    requires Inv(s) && step.Persist? && Enabled(s, step, authentic)
    ensures Inv(Apply(s, step, authentic))
  {
    OrderedContents(s.logs[step.r]);
    hide Wf, Ordered, Inv;
    SavedKeepsInv(s, step.r, Ordered(s.logs[step.r]));
  }

  lemma SavedKeepsInv(s: System, r: string, saved: seq<Entry>)
    requires Inv(s) && r in s.logs && r in s.disk
    requires forall e :: e in saved <==> e in s.logs[r].entries
    ensures Inv(s.(disk := s.disk[r := saved]))
  {
    hide Shape, AuthorsRemember, ForeignWasSent, StoreIsPast, AuthorsAreCausal;
    SavedIsPast(s, r, saved);
    DiskIsAside(s, r, saved);
  }

  /** What is on the stores matters to `StoreIsPast` only. */
  lemma DiskIsAside(s: System, r: string, saved: seq<Entry>)
    requires Shape(s) && AuthorsRemember(s) && ForeignWasSent(s) && AuthorsAreCausal(s) && r in s.disk
    ensures var s' := s.(disk := s.disk[r := saved]);
            Shape(s') && AuthorsRemember(s') && ForeignWasSent(s') && AuthorsAreCausal(s')
  {
    hide Wf;
  }

  lemma SavedIsPast(s: System, r: string, saved: seq<Entry>)
    requires StoreIsPast(s) && r in s.logs && r in s.disk && forall e :: e in saved <==> e in s.logs[r].entries
    ensures StoreIsPast(s.(disk := s.disk[r := saved]))
  {
    var s' := s.(disk := s.disk[r := saved]);
    forall q | q in s'.disk && q in s'.logs && q != r ensures s'.disk[q] == s.disk[q] {
    }
  }

  lemma SendKeepsInv(s: System, step: Step, authentic: Entry -> bool)
    requires Inv(s) && step.Send? && Enabled(s, step, authentic)
    ensures Inv(Apply(s, step, authentic))
  {
    hide Wf;
    forall e | e in step.entries ensures e.origin in s.logs && e in s.logs[e.origin].entries {
      assert e in s.logs[step.r].entries;
      if e.origin != step.r {
        assert e in s.wire;
      }
    }
  }

  /** What a delivery adds was sent, and is never the receiver's own. */
  lemma DeliveredEntries(s: System, r: string, batch: seq<Entry>, authentic: Entry -> bool)
    requires Inv(s) && Enabled(s, Deliver(r, batch), authentic)
    ensures var log' := Accepted(s.logs[r], batch, authentic);
            && Wf(log') && log'.origin == r
            && (forall e :: e in s.logs[r].entries ==> e in log'.entries)
            && (forall e :: e in log'.entries && e !in s.logs[r].entries ==> e in s.wire && e.origin != r)
  {
    var log := s.logs[r];
    var good := Good(batch, authentic);
    FilterMembers(Truncate(batch), (e: Entry) => Acceptable(e, authentic));
    MergeWf(log, good);
    MergeExtends(log, good);
    MergeReportsTheNew(log, good);
    var added := Added(log, good);
    assert Accepted(log, batch, authentic).entries == log.entries + added;
    forall e | e in added ensures e in s.wire && e.origin != r {
      assert e in good && e in batch;
      assert e.id in Ids(added);
    }
  }

  /** A log may be replaced by one that keeps what was sent and saved of its own,
      has no new entry of its own, and holds only what was sent of the others. */
  lemma ReplacedLogKeepsInv(s: System, r: string, log': Log)
    requires Inv(s) && r in s.logs && Wf(log') && log'.origin == r
    requires forall e :: e in log'.entries ==> if e.origin == r then e in s.logs[r].entries else e in s.wire
    requires forall e :: e in s.wire && e.origin == r ==> e in log'.entries
    requires forall d :: d in s.disk[r] ==> d in log'.entries
    ensures Inv(s.(logs := s.logs[r := log']))
  {
    hide Wf;
    var s' := s.(logs := s.logs[r := log']);
    assert Shape(s') by { hide AuthorsRemember, ForeignWasSent, StoreIsPast, AuthorsAreCausal; }
    assert AuthorsRemember(s') by { hide ForeignWasSent, StoreIsPast, AuthorsAreCausal; }
    assert ForeignWasSent(s') by { hide AuthorsRemember, StoreIsPast, AuthorsAreCausal; }
    assert StoreIsPast(s') by { hide AuthorsRemember, ForeignWasSent, AuthorsAreCausal; }
    assert AuthorsAreCausal(s') by { hide AuthorsRemember, ForeignWasSent, StoreIsPast; }
  }

  lemma DeliverKeepsInv(s: System, step: Step, authentic: Entry -> bool)
    requires Inv(s) && step.Deliver? && Enabled(s, step, authentic)
    ensures Inv(Apply(s, step, authentic))
  {
    DeliveredEntries(s, step.r, step.batch, authentic);
    hide Wf, Accepted, AuthorsAreCausal;
    ReplacedLogKeepsInv(s, step.r, Accepted(s.logs[step.r], step.batch, authentic));
  }

  /** Reloading a store gives exactly the saved entries. */
  lemma ReloadContents(log: Log, saved: seq<Entry>)
    requires Wf(log) && forall e :: e in saved ==> e in log.entries
    ensures var r := Reloaded(log.origin, saved);
            Wf(r) && r.origin == log.origin && forall e :: e in r.entries <==> e in saved
  {
    var r := Reloaded(log.origin, saved);
    EmptyWf(log.origin);
    MergeWf(Empty(log.origin), saved);
    MergeExtends(Empty(log.origin), saved);
    MergeIsUnion(Empty(log.origin), saved);
    forall e | e in saved ensures e in r.entries {
      assert e.id in NamedIds(saved);
      var x :| x in r.entries && x.id == e.id;
      SameIdSameEntry(log, x, e);
    }
  }

  lemma RestartKeepsInv(s: System, step: Step, authentic: Entry -> bool)
    requires Inv(s) && step.Restart? && Enabled(s, step, authentic) && Careful(s, step)
    ensures Inv(Apply(s, step, authentic))
  {
    ReloadContents(s.logs[step.r], s.disk[step.r]);
    hide Wf, Reloaded, AuthorsAreCausal;
    ReplacedLogKeepsInv(s, step.r, Reloaded(step.r, s.disk[step.r]));
  }

  lemma StepKeepsInv(s: System, step: Step, authentic: Entry -> bool)
    requires Inv(s) && Enabled(s, step, authentic) && Careful(s, step)
    ensures Inv(Apply(s, step, authentic))
  {
    hide Inv, Careful;
    match step
    case Append(_, _, _, _) => AppendKeepsInv(s, step, authentic);
    case Persist(_) => PersistKeepsInv(s, step, authentic);
    case Send(_, _) => SendKeepsInv(s, step, authentic);
    case Deliver(_, _) => DeliverKeepsInv(s, step, authentic);
    case Restart(_) => RestartKeepsInv(s, step, authentic);
  }

  lemma {:induction false} RunKeepsInv(s: System, steps: seq<Step>, authentic: Entry -> bool)
    requires Inv(s) && CarefulRun(s, steps, authentic)
    ensures Inv(After(s, steps, authentic))
    decreases |steps|
  {
    hide Inv;
    if |steps| > 0 {
      StepKeepsInv(s, steps[0], authentic);
      RunKeepsInv(Apply(s, steps[0], authentic), steps[1..], authentic);
    }
  }

  // ------------------------------------------------------------ convergence

  lemma SameIdsSameLog(s: System, r1: string, r2: string)
    requires Inv(s) && r1 in s.logs && r2 in s.logs
    requires Ids(s.logs[r1].entries) == Ids(s.logs[r2].entries)
    ensures Ordered(s.logs[r1]) == Ordered(s.logs[r2]) && s.logs[r1].vv == s.logs[r2].vv
  {
    IdsAreUnique(s);
    var a, b := s.logs[r1], s.logs[r2];
    forall e ensures e in a.entries <==> e in b.entries {
      if e in a.entries {
        assert e.id in Ids(a.entries);
        var x :| x in b.entries && x.id == e.id;
        assert Present(s, e) && Present(s, x);
      }
      if e in b.entries {
        assert e.id in Ids(b.entries);
        var x :| x in a.entries && x.id == e.id;
        assert Present(s, e) && Present(s, x);
      }
    }
    SameEntriesSameOrder(a, b);
    SameEntriesSameClock(a, b);
  }

  /** Whatever is appended, saved, sent, lost, repeated, reordered, forged or
      reloaded on the way, replicas that hold the same ids show the same list. */
  lemma Convergence(s: System, steps: seq<Step>, authentic: Entry -> bool, r1: string, r2: string)
    requires Initial(s) && CarefulRun(s, steps, authentic)
    requires var t := After(s, steps, authentic);
             r1 in t.logs && r2 in t.logs && Ids(t.logs[r1].entries) == Ids(t.logs[r2].entries)
    ensures var t := After(s, steps, authentic);
            OneEntryPerId(t) && Ordered(t.logs[r1]) == Ordered(t.logs[r2])
  {
    InitialInv(s);
    RunKeepsInv(s, steps, authentic);
    hide Inv, Initial, CarefulRun, After;
    IdsAreUnique(After(s, steps, authentic));
    SameIdsSameLog(After(s, steps, authentic), r1, r2);
  }

  /** `path` leads from cause to effect: each entry was held by the author of the next. */
  ghost predicate CausalPath(s: System, path: seq<Entry>) {
    && |path| > 0
    && (forall k :: 0 <= k < |path| ==> Present(s, path[k]))
    && forall k :: 0 < k < |path| ==> path[k].id in s.heard && path[k - 1] in s.heard[path[k].id]
  }

  lemma HeardIsEarlier(s: System, cause: Entry, effect: Entry)
    requires Inv(s) && Present(s, effect) && effect.id in s.heard && cause in s.heard[effect.id]
    ensures cause.lamport < effect.lamport
  {
    PresentAtAuthor(s, effect);
  }

  lemma {:induction false} CausesAreEarlier(s: System, path: seq<Entry>)
    requires Inv(s) && CausalPath(s, path) && |path| >= 2
    ensures path[0].lamport < path[|path| - 1].lamport
  {
    hide Inv, Present;
    HeardIsEarlier(s, path[|path| - 2], path[|path| - 1]);
    if |path| > 2 {
      CausesAreEarlier(s, path[..|path| - 1]);
    }
  }

  /** The displayed order extends happens-before: a cause stands above its effect. */
  lemma OrderExtendsCausality(s: System, r: string, path: seq<Entry>, i: nat, j: nat)
    requires Inv(s) && r in s.logs && CausalPath(s, path) && |path| >= 2
    requires i < |Ordered(s.logs[r])| && Ordered(s.logs[r])[i] == path[0]
    requires j < |Ordered(s.logs[r])| && Ordered(s.logs[r])[j] == path[|path| - 1]
    ensures i < j
  {
    CausesAreEarlier(s, path);
    assert Wf(s.logs[r]);
    OrderedContents(s.logs[r]);
    hide *;
    EarlierStandsAbove(Ordered(s.logs[r]), i, j);
  }

  lemma EarlierStandsAbove(shown: seq<Entry>, i: nat, j: nat)
    requires Sorted(shown, Before) && i < |shown| && j < |shown| && shown[i].lamport < shown[j].lamport
    ensures i < j
  {
    assert Before(shown[i], shown[j]);
  }

  /** In every reachable state the hypotheses of anti-entropy hold between any two logs. */
  lemma LogsFitForSync(s: System, r1: string, r2: string)
    requires Inv(s) && r1 in s.logs && r2 in s.logs
    ensures Wf(s.logs[r1]) && ClockRises(s.logs[r1]) && Agree(s.logs[r1], s.logs[r2])
  {
    forall a, b | a in s.logs[r1].entries && b in s.logs[r1].entries && a.origin == b.origin && a.seqNo < b.seqNo
      ensures a.lamport < b.lamport
    {
      assert Present(s, a) && Present(s, b);
      PresentAtAuthor(s, a);
      PresentAtAuthor(s, b);
    }
    IdsAreUnique(s);
    forall a, b | a in s.logs[r1].entries && b in s.logs[r2].entries && a.id == b.id ensures a == b {
      assert Present(s, a) && Present(s, b);
    }
  }

  // --------------------------------------------------------------- restarts

  function Appends(r: string, data: string, n: nat): seq<Step> {
    if n == 0 then [] else [Append(r, "chat", data, 0)] + Appends(r, data, n - 1)
  }

  /** After `n` appends the newest own entry is numbered `n` past the old mark. */
  lemma {:induction false} AppendsMint(s: System, r: string, data: string, n: nat, authentic: Entry -> bool)
    requires r in s.logs && r in s.disk && s.logs[r].origin == r
    ensures CarefulRun(s, Appends(r, data, n), authentic)
    ensures var t := After(s, Appends(r, data, n), authentic);
            && t.wire == s.wire && r in t.logs
            && (n > 0 ==> exists e :: && e in t.logs[r].entries && e.data == data
                                      && e.id == EntryId(r, Mark(s.logs[r].vv, r) + n))
    ensures forall e :: e in s.logs[r].entries ==> e in After(s, Appends(r, data, n), authentic).logs[r].entries
    decreases n
  {
    if n > 0 {
      var s1 := Apply(s, Append(r, "chat", data, 0), authentic);
      var e := MintedBy(s.logs[r], "chat", data, 0);
      assert e in s1.logs[r].entries;
      assert Mark(s1.logs[r].vv, r) == Mark(s.logs[r].vv, r) + 1;
      AppendsMint(s1, r, data, n - 1, authentic);
      assert Appends(r, data, n)[1..] == Appends(r, data, n - 1);
    }
  }

  /** An own entry that was sent but not saved is numbered past the reloaded mark. */
  lemma UnsavedIsPastMark(s: System, r: string, e: Entry)
    requires Inv(s) && r in s.logs && e in s.wire && e.origin == r && e !in s.disk[r]
    ensures Mark(Reloaded(r, s.disk[r]).vv, r) < e.seqNo
  {
    ReloadContents(s.logs[r], s.disk[r]);
    var log := Reloaded(r, s.disk[r]);
    if r in log.vv {
      var x :| x in log.entries && x.origin == r && x.seqNo == log.vv[r];
    }
  }

  /** After an uncovered restart the author can mint an id that is already out. */
  lemma UncoveredRestartForks(s: System, r: string, authentic: Entry -> bool) returns (steps: seq<Step>)
    requires Inv(s) && r in s.logs && !StoreCoversSent(s, r)
    ensures CarefulRun(Apply(s, Restart(r), authentic), steps, authentic)
    ensures !OneEntryPerId(After(Apply(s, Restart(r), authentic), steps, authentic))
  {
    hide Inv, Wf, CarefulRun, OneEntryPerId, After, Apply;
    OwnLog(s, r);
    var e :| e in s.wire && e.origin == r && e !in s.disk[r];
    RestartForgets(s, r, e, authentic);
    steps := ReMint(Apply(s, Restart(r), authentic), r, e, authentic);
  }

  lemma RestartForgets(s: System, r: string, e: Entry, authentic: Entry -> bool)
    requires Inv(s) && r in s.logs && e in s.wire && e.origin == r && r in s.disk && e !in s.disk[r]
    ensures var t := Apply(s, Restart(r), authentic);
            && r in t.logs && r in t.disk && t.logs[r].origin == r
            && e in t.wire && WellNamed(e) && Mark(t.logs[r].vv, r) < e.seqNo
  {
    hide Inv, Wf, Reloaded, WellNamed, Mark;
    UnsavedIsPastMark(s, r, e);
    OwnLog(s, r);
    ReloadContents(s.logs[r], s.disk[r]);
    PresentAtAuthor(s, e);
  }

  lemma OwnLog(s: System, r: string)
    requires Inv(s) && r in s.logs
    ensures Wf(s.logs[r]) && s.logs[r].origin == r && r in s.disk
    ensures forall e :: e in s.disk[r] ==> e in s.logs[r].entries
  {
    hide Wf;
  }

  lemma ReMint(t: System, r: string, e: Entry, authentic: Entry -> bool) returns (steps: seq<Step>)
    requires r in t.logs && r in t.disk && t.logs[r].origin == r
    requires e in t.wire && WellNamed(e) && e.origin == r && Mark(t.logs[r].vv, r) < e.seqNo
    ensures CarefulRun(t, steps, authentic)
    ensures !OneEntryPerId(After(t, steps, authentic))
  {
    var n := e.seqNo - Mark(t.logs[r].vv, r);
    var data := e.data + "'";
    steps := Appends(r, data, n);
    AppendsMint(t, r, data, n, authentic);
    var u := After(t, steps, authentic);
    var f :| f in u.logs[r].entries && f.data == data && f.id == e.id;
    TwoCopies(u, e, f, r);
  }

  lemma TwoCopies(s: System, a: Entry, b: Entry, r: string)
    requires a in s.wire && r in s.logs && b in s.logs[r].entries && a.id == b.id && a != b
    ensures !OneEntryPerId(s)
  {
    assert Present(s, a) && Present(s, b);
  }

  /** A restart can never lead to two entries under one id if and only if the
      store covers what the replica has sent of its own. */
  lemma RestartSafeIffStoreCovers(s: System, r: string, authentic: Entry -> bool)
    requires Inv(s) && r in s.logs
    ensures var t := Apply(s, Restart(r), authentic);
            StoreCoversSent(s, r) <==>
            forall steps :: CarefulRun(t, steps, authentic) ==> OneEntryPerId(After(t, steps, authentic))
  {
    var t := Apply(s, Restart(r), authentic);
    hide Inv, OneEntryPerId, CarefulRun, After;
    if StoreCoversSent(s, r) {
      RestartKeepsInv(s, Restart(r), authentic);
      forall steps | CarefulRun(t, steps, authentic) ensures OneEntryPerId(After(t, steps, authentic)) {
        RunKeepsInv(t, steps, authentic);
        IdsAreUnique(After(t, steps, authentic));
      }
    } else {
      var steps := UncoveredRestartForks(s, r, authentic);
    }
  }

  /** Answering a sync request between an append and its save uncovers the store. */
  lemma EarlyAnswerUncovers(s: System, r: string, kind: string, data: string, ts: int, authentic: Entry -> bool)
    requires Inv(s) && r in s.logs
    ensures var s1 := Apply(s, Append(r, kind, data, ts), authentic);
            var e := MintedBy(s.logs[r], kind, data, ts);
            && Enabled(s1, Send(r, [e]), authentic)
            && !StoreCoversSent(Apply(s1, Send(r, [e]), authentic), r)
  {
    var e := MintedBy(s.logs[r], kind, data, ts);
    AppendFacts(s.logs[r], kind, data, ts);
    assert e !in s.disk[r] by {
      hide Wf, MintedBy, Appended, AuthorsRemember, ForeignWasSent, AuthorsAreCausal;
    }
    hide Wf, MintedBy, Appended, Inv;
    assert e in [e];
  }

  /** The order of `sendChat`: what a replica sends of its own is on its store. */
  ghost predicate SaveBeforeSend(s: System, step: Step) {
    step.Send? && step.r in s.disk ==>
      forall e :: e in step.entries && e.origin == step.r ==> e in s.disk[step.r]
  }

  ghost predicate SavingRun(s: System, steps: seq<Step>, authentic: Entry -> bool)
    decreases |steps|
  {
    |steps| == 0 || (&& Enabled(s, steps[0], authentic) && SaveBeforeSend(s, steps[0])
                     && SavingRun(Apply(s, steps[0], authentic), steps[1..], authentic))
  }

  ghost predicate AllCovered(s: System) {
    forall r :: r in s.logs ==> StoreCoversSent(s, r)
  }

  lemma SavingStepKeepsCover(s: System, step: Step, authentic: Entry -> bool)
    requires Inv(s) && AllCovered(s) && Enabled(s, step, authentic) && SaveBeforeSend(s, step)
    ensures AllCovered(Apply(s, step, authentic))
  {
    var s' := Apply(s, step, authentic);
    OrderedContents(s.logs[step.r]);
    hide Wf, Ordered, Accepted, Reloaded, Appended, MintedBy, AuthorsAreCausal, StoreCoversSent;
    forall r | r in s'.logs ensures StoreCoversSent(s', r) {
      assert StoreCoversSent(s, r);
      CoverGrows(s, s', r, step);
    }
  }

  /** A store that held all its node had sent still does if it lost nothing that is held,
      and what is newly sent was saved. */
  lemma CoverGrows(s: System, t: System, r: string, step: Step)
    requires Inv(s) && r in s.logs && r in s.disk && StoreCoversSent(s, r) && r in t.logs && r in t.disk
    requires forall e :: e in s.disk[r] && e in s.logs[r].entries ==> e in t.disk[r]
    requires forall e :: e in t.wire ==> e in s.wire || (e.origin == r ==> e in t.disk[r])
    ensures StoreCoversSent(t, r)
  {
    hide Wf, AuthorsAreCausal;
  }

  /** Saving before sending makes every restart safe, in every run. */
  lemma {:induction false} SavingRunIsCareful(s: System, steps: seq<Step>, authentic: Entry -> bool)
    requires Inv(s) && AllCovered(s) && SavingRun(s, steps, authentic)
    ensures CarefulRun(s, steps, authentic)
    decreases |steps|
  {
    if |steps| > 0 {
      assert Careful(s, steps[0]);
      hide Inv, AllCovered;
      StepKeepsInv(s, steps[0], authentic);
      SavingStepKeepsCover(s, steps[0], authentic);
      SavingRunIsCareful(Apply(s, steps[0], authentic), steps[1..], authentic);
    }
  }
}
