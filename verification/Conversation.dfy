/** How a conversation takes entries from its peers, and how anti-entropy fills
    a log from a peer's, at most 512 entries at a time. */
module Conversation {
  import opened Ordering
  import opened Crdt

  const MAX_ENTRIES_PER_DELTA: nat := 512

  function Truncate(entries: seq<Entry>): seq<Entry> {
    if |entries| <= MAX_ENTRIES_PER_DELTA then entries else entries[..MAX_ENTRIES_PER_DELTA]
  }

  /** An entry is merged only when it is a chat or file entry whose name, key and
      signature check out; `authentic` stands for the key and signature checks. */
  predicate Acceptable(e: Entry, authentic: Entry -> bool) {
    (e.kind == "chat" || e.kind == "file") && WellNamed(e) && authentic(e)
  }

  function Good(entries: seq<Entry>, authentic: Entry -> bool): seq<Entry> {
    Filter(Truncate(entries), (e: Entry) => Acceptable(e, authentic))
  }

  function Accepted(log: Log, entries: seq<Entry>, authentic: Entry -> bool): Log {
    Merged(log, Good(entries, authentic))
  }

  /** A chat or file entry under its own name, whose key and signature check out. */
  predicate Admissible(e: Entry, authentic: Entry -> bool) {
    e.kind in {"chat", "file"} && e.id == EntryId(e.origin, e.seqNo) && authentic(e)
  }

  /** Among the first 512 there is a valid entry of this id. */
  ghost predicate Brings(entries: seq<Entry>, authentic: Entry -> bool, id: string) {
    exists i :: 0 <= i < |entries| && i < 512 && entries[i].id == id && Admissible(entries[i], authentic)
  }

  /** After a delta a log holds the ids it held and exactly those that the delta brings;
      the entries that are new come from the delta, one for each id. */
  lemma AcceptedIds(log: Log, entries: seq<Entry>, authentic: Entry -> bool)
    requires Wf(log)
    ensures var after := Accepted(log, entries, authentic).entries;
            && (forall id :: id in Ids(after) <==> id in Ids(log.entries) || Brings(entries, authentic, id))
            && log.entries <= after && DistinctIds(after)
            && forall e :: e in after[|log.entries|..] ==>
                             e in entries && Admissible(e, authentic) && e.id !in Ids(log.entries)
  {
    var batch, good := Truncate(entries), Good(entries, authentic);
    MergeIsUnion(log, good);
    MergeReportsTheNew(log, good);
    MergeWf(log, good);
    MergeExtends(log, good);
    FilterMembers(batch, (e: Entry) => Acceptable(e, authentic));
    hide Wf, Merged, DistinctIds;
    assert forall e :: e in good <==> e in batch && Admissible(e, authentic);
    forall id ensures id in NamedIds(good) <==> Brings(entries, authentic, id) {
      if id in NamedIds(good) {
        var e :| e in good && WellNamed(e) && e.id == id;
        var i :| 0 <= i < |batch| && batch[i] == e;
        assert entries[i] == e;
      }
      if i :| 0 <= i < |entries| && i < 512 && entries[i].id == id && Admissible(entries[i], authentic) {
        assert batch[i] == entries[i] && entries[i] in batch;
      }
    }
    var added := Added(log, good);
    forall e | e in added ensures e in entries && Admissible(e, authentic) && e.id !in Ids(log.entries) {
      assert e in good && e.id in Ids(added);
    }
  }

  function Others(entries: seq<Entry>, me: string): nat {
    |Filter(entries, (e: Entry) => ReplicaNodeId(e.origin) != me)|
  }

  ghost predicate LatestOf(ts: int, before: int, entries: seq<Entry>) {
    && ts >= before && (forall e :: e in entries ==> e.ts <= ts)
    && (ts == before || exists e :: e in entries && e.ts == ts)
  }

  class Conversation {
    const me: string
    const log: GSetLog
    var unread: nat
    var lastTs: int

    ghost predicate Valid()
      reads this, log
    {
      log.Valid()
    }

    constructor (me: string, log: GSetLog)
      requires log.Valid()
      ensures this.me == me && this.log == log && Valid() && unread == 0 && lastTs == 0
    {
      this.me, this.log, unread, lastTs := me, log, 0, 0;
    }

    /** Merges what a peer sent and returns what must be forwarded to the others:
        exactly the entries that were new here. */
    method AcceptEntries(entries: seq<Entry>, authentic: Entry -> bool) returns (forward: seq<Entry>)
      requires Valid()
      modifies this, log
      ensures Valid() && log.View() == Accepted(old(log.View()), entries, authentic)
      ensures log.entries == old(log.entries) + forward && |forward| <= 512
      ensures forall id :: id in Ids(log.entries) <==> id in old(Ids(log.entries)) || Brings(entries, authentic, id)
      ensures forall e :: e in forward ==> e in entries && Admissible(e, authentic) && e.id !in old(Ids(log.entries))
      ensures DistinctIds(forward)
      ensures unread == old(unread) + |Filter(forward, (e: Entry) => ReplicaNodeId(e.origin) != me)|
      ensures LatestOf(lastTs, old(lastTs), forward)
    {
      hide Wf;
      var good := Check(entries, authentic);
      MergeReportsTheNew(log.View(), good);
      AcceptedIds(log.View(), entries, authentic);
      assert |good| <= 512 by {
        FilterMembers(Truncate(entries), (e: Entry) => Acceptable(e, authentic));
      }
      assert Added(log.View(), good) == Merged(log.View(), good).entries[|log.entries|..];
      forward := log.Merge(good);
      if |forward| > 0 {
        Bump(forward);
      }
    }

    /** The acceptable entries among the first 512. */
    static method Check(entries: seq<Entry>, authentic: Entry -> bool) returns (good: seq<Entry>)
      ensures good == Good(entries, authentic)
    {
      var batch := if |entries| <= MAX_ENTRIES_PER_DELTA then entries else entries[..MAX_ENTRIES_PER_DELTA];
      good := [];
      for i := 0 to |batch|
        invariant good == Filter(batch[..i], (e: Entry) => Acceptable(e, authentic))
      {
        var entry := batch[i];
        assert batch[..i + 1] == batch[..i] + [entry];
        FilterAppend(batch[..i], entry, (e: Entry) => Acceptable(e, authentic));
        if entry.kind != "chat" && entry.kind != "file" {
          continue;
        }
        if !(WellNamed(entry) && authentic(entry)) {
          continue;
        }
        good := good + [entry];
      }
      assert batch[..|batch|] == batch;
    }

    method Bump(added: seq<Entry>)
      modifies this
      ensures unread == old(unread) + |Filter(added, (e: Entry) => ReplicaNodeId(e.origin) != me)|
      ensures LatestOf(lastTs, old(lastTs), added)
    {
      for i := 0 to |added|
        invariant unread == old(unread) + Others(added[..i], me)
        invariant LatestOf(lastTs, old(lastTs), added[..i])
      {
        assert added[..i + 1] == added[..i] + [added[i]];
        FilterAppend(added[..i], added[i], (e: Entry) => ReplicaNodeId(e.origin) != me);
        if ReplicaNodeId(added[i].origin) != me {
          unread := unread + 1;
        }
        if added[i].ts > lastTs {
          lastTs := added[i].ts;
        }
        assert added[i] in added[..i + 1];
      }
      assert added[..|added|] == added;
    }

    /** Writes an entry, saves the log, and only then announces the entry: what is
        sent is in what was saved. */
    method SendChat(data: string, ts: int) returns (saved: seq<Entry>, delta: seq<Entry>)
      requires Valid()
      modifies this, log
      ensures Valid() && log.View() == Appended(old(log.View()), "chat", data, ts)
      ensures saved == Ordered(log.View()) && delta == [MintedBy(old(log.View()), "chat", data, ts)]
      ensures forall e :: e in delta ==> e in saved && Acceptable(e, _ => true)
                                         && e.kind == "chat" && e.data == data && e.ts == ts && e.origin == log.origin
      ensures lastTs == ts && unread == old(unread)
    {
      hide Wf, Before;
      var entry := log.Append("chat", data, ts);
      saved := log.ToJson();
      lastTs := entry.ts;
      delta := [entry];
    }

    /** The answer to a sync request: what we hold above the requester's marks, each
        entry once and in the log's order, which the requester's cut depends on. */
    method AnswerSync(remote: VersionVector) returns (delta: seq<Entry>)
      requires Valid()
      ensures delta == EntriesMissingFrom(log.View(), remote)
      ensures Rising(delta) && Distinct(delta)
      ensures forall e :: e in delta <==>
                          e in log.entries && e.seqNo > if e.origin in remote then remote[e.origin] else 0
    {
      delta := log.MissingFrom(remote);
    }
  }
}
