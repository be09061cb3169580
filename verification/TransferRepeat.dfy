/** What a second announcement does to an honest transfer. The counters do not start
    over with it, so it is harmless only before the first chunk. */
module TransferRepeat {
  import opened Basics
  import opened Base64
  import opened FileTransfer
  import opened TransferDelivery
  import TransferSafety

  function Announce(s: State, peer: string, cid: string, bytes: Bytes): State {
    OnMessage(s, peer, MetaOf(cid, bytes))
  }

  ghost predicate Indices(order: seq<nat>, bytes: Bytes) {
    forall j :: 0 <= j < |order| ==> order[j] < TotalChunks(|bytes|)
  }

  ghost predicate CoversAll(order: seq<nat>, bytes: Bytes) {
    forall k: nat :: k < TotalChunks(|bytes|) ==> k in order
  }

  /** Honest chunks, without metadata. */
  function FeedChunks(s: State, peer: string, cid: string, bytes: Bytes, order: seq<nat>): State
    requires Indices(order, bytes)
  {
    if |order| == 0 then s
    else OnMessage(FeedChunks(s, peer, cid, bytes, order[..|order| - 1]), peer,
                   ChunkMsg(cid, bytes, order[|order| - 1]))
  }

  // ----------------------------------------------------- counters that run ahead

  /** The transfer holds the chunks `seen`, but has counted `ahead` more. */
  ghost predicate RunsAhead(t: Transfer, bytes: Bytes, seen: set<nat>, ahead: nat) {
    && t.length == TotalChunks(|bytes|) && t.total == t.length as real && t.size == |bytes| as real
    && (forall i :: i in seen ==> i < t.length && Key(i) in t.chunks)
    && (forall i: nat :: i !in seen ==> Key(i) !in t.chunks)
    && t.received == |seen| + ahead < t.length
  }

  predicate Failed(s: State, serial: nat) {
    serial in s.settled && s.settled[serial].Rejected?
  }

  /** The transfer has failed, or its counters run ahead. */
  ghost predicate Doomed(s: State, peer: string, cid: string, serial: nat, bytes: Bytes, seen: set<nat>, ahead: nat) {
    && Serves(s, peer, cid) && s.incoming[cid].serial == serial
    && (Failed(s, serial) || (serial !in s.settled && RunsAhead(s.incoming[cid], bytes, seen, ahead)))
  }

  lemma {:induction false} AssembledHasAll(chunks: map<real, Bytes>, n: nat, k: nat)
    requires k < n && Key(k) !in chunks
    ensures Assemble(chunks, n) == None
  {
    if k < n - 1 {
      AssembledHasAll(chunks, n - 1, k);
    }
  }

  lemma {:induction false} SomeoneMissing(seen: set<nat>, n: nat) returns (k: nat)
    requires |seen| < n && forall i :: i in seen ==> i < n
    ensures k < n && k !in seen
  {
    if n - 1 !in seen {
      k := n - 1;
    } else {
      k := SomeoneMissing(seen - {n - 1}, n - 1);
    }
  }

  lemma FinishFails(s: State, t: Transfer, seen: set<nat>)
    requires |seen| < t.length && (forall i :: i in seen ==> i < t.length)
    requires forall i: nat :: i !in seen ==> Key(i) !in t.chunks
    ensures Finish(s, t) == Settle(s, t.serial, Rejected(MissingChunk))
  {
    var k := SomeoneMissing(seen, t.length);
    AssembledHasAll(t.chunks, t.length, k);
  }

  lemma MessageKeepsTransfer(s: State, peer: string, cid: string, msg: Msg)
    requires Serves(s, peer, cid)
    ensures var t := OnMessage(s, peer, msg); Serves(t, peer, cid) && t.incoming[cid].serial == s.incoming[cid].serial
  {
    hide Assemble, Decode;
  }

  lemma RefusedStep(s: State, peer: string, cid: string, idx: real, data: string, bytes: Bytes)
    requires Serves(s, peer, cid) && 0.0 <= idx < s.incoming[cid].total && idx !in s.incoming[cid].chunks
    requires Decode(data) == Plain(bytes)
    requires |bytes| > CHUNK_BYTES || (s.incoming[cid].bytesSeen + |bytes|) as real > s.incoming[cid].size
    ensures OnChunk(s, peer, cid, Num(idx), data) == Settle(s, s.incoming[cid].serial, Rejected(TooBig))
  {
    hide Decode, Finish;
  }

  lemma KnownStep(s: State, peer: string, cid: string, idx: real, data: string)
    requires Serves(s, peer, cid) && idx in s.incoming[cid].chunks
    ensures OnChunk(s, peer, cid, Num(idx), data) == s
  {
    hide Decode, Finish;
  }

  /** An honest chunk leaves a doomed transfer doomed. */
  lemma DoomedStep(s: State, peer: string, cid: string, serial: nat, bytes: Bytes, seen: set<nat>, ahead: nat, i: nat)
    requires Doomed(s, peer, cid, serial, bytes, seen, ahead) && ahead > 0 && i < TotalChunks(|bytes|)
    ensures Doomed(OnMessage(s, peer, ChunkMsg(cid, bytes, i)), peer, cid, serial, bytes, seen + {i}, ahead)
  {
    MessageKeepsTransfer(s, peer, cid, ChunkMsg(cid, bytes, i));
    if Failed(s, serial) {
      TransferSafety.OutcomesAreFinal(s, Message(peer, ChunkMsg(cid, bytes, i)), b => "", serial);
      hide OnMessage;
    } else if i in seen {
      KnownStep(s, peer, cid, Key(i), Encode(ChunkOf(bytes, i)));
      assert seen + {i} == seen;
      hide OnChunk, Encode, RunsAhead;
    } else {
      DecodeOfEncode(ChunkOf(bytes, i));
      AheadStep(s, peer, cid, bytes, seen, ahead, i);
    }
  }

  lemma AheadStep(s: State, peer: string, cid: string, bytes: Bytes, seen: set<nat>, ahead: nat, i: nat)
    requires Serves(s, peer, cid) && RunsAhead(s.incoming[cid], bytes, seen, ahead) && ahead > 0
    requires s.incoming[cid].serial !in s.settled && i < TotalChunks(|bytes|) && i !in seen
    requires Decode(Encode(ChunkOf(bytes, i))) == Plain(ChunkOf(bytes, i))
    ensures Doomed(OnMessage(s, peer, ChunkMsg(cid, bytes, i)), peer, cid, s.incoming[cid].serial, bytes,
                   seen + {i}, ahead)
  {
    var t, chunk := s.incoming[cid], ChunkOf(bytes, i);
    assert Key(i) !in t.chunks && Key(i) < t.total;
    ReceivedAhead(t, bytes, seen, ahead, i, chunk);
    hide RunsAhead, Encode, Decode, ChunkOf, TotalChunks, Finish, OnChunk;
    if |chunk| > CHUNK_BYTES || (t.bytesSeen + |chunk|) as real > t.size {
      RefusedStep(s, peer, cid, Key(i), Encode(chunk), chunk);
    } else {
      AcceptedStep(s, peer, cid, Key(i), Encode(chunk), chunk);
      var u := Received(t, Key(i), chunk);
      StoredAhead(s, peer, cid, bytes, seen + {i}, ahead, u);
    }
  }

  lemma StoredAhead(s: State, peer: string, cid: string, bytes: Bytes, seen: set<nat>, ahead: nat, u: Transfer)
    requires cid in s.incoming && s.incoming[cid].serial !in s.settled
    requires u.serial == s.incoming[cid].serial && u.peer == peer && u.total == u.length as real
    requires u.received < u.length ==> RunsAhead(u, bytes, seen, ahead)
    requires u.received <= u.length && |seen| < u.length && (forall k :: k in seen ==> k < u.length)
    requires forall k: nat :: k !in seen ==> Key(k) !in u.chunks
    ensures var s1 := s.(incoming := s.incoming[cid := u]);
            Doomed(if u.received as real == u.total then Finish(s1, u) else s1, peer, cid, u.serial, bytes, seen, ahead)
  {
    var s1 := s.(incoming := s.incoming[cid := u]);
    hide RunsAhead, Finish;
    if u.received == u.length {
      FinishFails(s1, u, seen);
    }
  }

  lemma ReceivedAhead(t: Transfer, bytes: Bytes, seen: set<nat>, ahead: nat, i: nat, chunk: Bytes)
    requires RunsAhead(t, bytes, seen, ahead) && ahead > 0 && i < TotalChunks(|bytes|) && i !in seen
    ensures var u := Received(t, Key(i), chunk);
            && u.serial == t.serial && u.peer == t.peer && u.length == t.length
            && u.total == t.total == u.length as real
            && u.received == |seen + {i}| + ahead <= u.length && |seen + {i}| < u.length
            && (u.received < u.length ==> RunsAhead(u, bytes, seen + {i}, ahead))
            && (forall k :: k in seen + {i} ==> k < u.length)
            && forall k: nat :: k !in seen + {i} ==> Key(k) !in u.chunks
  {
    hide TotalChunks;
    assert |seen + {i}| == |seen| + 1;
  }

  lemma {:induction false} FeedDoomed(s: State, peer: string, cid: string, serial: nat, bytes: Bytes,
                                      order: seq<nat>, ahead: nat)
    requires Doomed(s, peer, cid, serial, bytes, {}, ahead) && ahead > 0 && Indices(order, bytes)
    ensures Doomed(FeedChunks(s, peer, cid, bytes, order), peer, cid, serial, bytes, Members(order), ahead)
  {
    hide Doomed, OnMessage, ChunkMsg, TotalChunks;
    if |order| == 0 {
      assert Members(order) == {};
    } else {
      var rest, i := order[..|order| - 1], order[|order| - 1];
      assert order == rest + [i];
      FeedDoomed(s, peer, cid, serial, bytes, rest, ahead);
      DoomedStep(FeedChunks(s, peer, cid, bytes, rest), peer, cid, serial, bytes, Members(rest), ahead, i);
      assert Members(order) == Members(rest) + {i};
    }
  }

  lemma EnoughChunksFail(s: State, peer: string, cid: string, serial: nat, bytes: Bytes, order: seq<nat>, ahead: nat)
    requires Doomed(s, peer, cid, serial, bytes, Members(order), ahead)
    requires Indices(order, bytes) && CoversAll(order, bytes)
    ensures Failed(s, serial)
  {
    AllSeen(Members(order), TotalChunks(|bytes|));
  }

  /** Announcing again drops the chunks and keeps the count. */
  lemma SecondAnnouncement(s: State, start: State, peer: string, cid: string, bytes: Bytes, seen: set<nat>)
    requires OnTrack(s, start, peer, cid, bytes, seen) && 0 < |bytes| <= MAX_FILE_BYTES
    ensures var t := Announce(s, peer, cid, bytes);
            && Serves(t, peer, cid) && t.settled == s.settled && t.hashing == s.hashing && t.requested == s.requested
            && t.incoming[cid] == s.incoming[cid].(chunks := map[])
  {
    TotalCovers(|bytes|);
    hide TotalChunks, Finish, Covered, ChunkOf;
  }

  lemma AnnouncedTwice(s: State, peer: string, cid: string, bytes: Bytes, first: seq<nat>)
    requires Fresh(s, cid, peer) && 0 < |bytes| <= MAX_FILE_BYTES && Indices(first, bytes)
    requires 0 < |Members(first)| < TotalChunks(|bytes|)
    ensures Doomed(Announce(Feed(s, peer, cid, bytes, first), peer, cid, bytes), peer, cid, s.incoming[cid].serial,
                   bytes, {}, |Members(first)|)
  {
    FeedOnTrack(s, peer, cid, bytes, first);
    SecondAnnouncement(Feed(s, peer, cid, bytes, first), s, peer, cid, bytes, Members(first));
    hide Announce, Feed, TotalChunks, Covered, ChunkOf;
  }

  /** Two announcements in a row are as good as one. */
  lemma AnnouncedAgainAtOnce(s: State, peer: string, cid: string, bytes: Bytes)
    requires Fresh(s, cid, peer) && 0 < |bytes| <= MAX_FILE_BYTES
    ensures OnTrack(Announce(Announce(s, peer, cid, bytes), peer, cid, bytes), s, peer, cid, bytes, {})
  {
    MetaStarts(s, peer, cid, bytes);
    SecondAnnouncement(Announce(s, peer, cid, bytes), s, peer, cid, bytes, {});
    NothingCovered(bytes, TotalChunks(|bytes|));
    hide Announce, TotalChunks, Covered, ChunkOf;
  }

  lemma {:induction false} FeedChunksOnTrack(s: State, start: State, peer: string, cid: string, bytes: Bytes,
                                             order: seq<nat>)
    requires OnTrack(s, start, peer, cid, bytes, {}) && Indices(order, bytes)
    ensures OnTrack(FeedChunks(s, peer, cid, bytes, order), start, peer, cid, bytes, Members(order))
  {
    hide OnTrack, OnMessage, ChunkMsg, TotalChunks;
    if |order| == 0 {
      assert Members(order) == {};
    } else {
      var rest, i := order[..|order| - 1], order[|order| - 1];
      assert order == rest + [i];
      FeedChunksOnTrack(s, start, peer, cid, bytes, rest);
      ChunkKeepsTrack(FeedChunks(s, peer, cid, bytes, rest), start, peer, cid, bytes, Members(rest), i);
      assert Members(order) == Members(rest) + {i};
    }
  }

  predicate Yields(s: State, serial: nat, bytes: Bytes) {
    serial in s.settled && s.settled[serial] == Resolved(bytes)
  }

  lemma CompleteTrackYields(s: State, start: State, peer: string, cid: string, bytes: Bytes, order: seq<nat>,
                            hashOf: Bytes -> string)
    requires OnTrack(s, start, peer, cid, bytes, Members(order)) && start.incoming[cid].serial !in start.settled
    requires Indices(order, bytes) && CoversAll(order, bytes) && hashOf(bytes) == cid
    ensures Yields(OnHashed(s, |start.hashing|, hashOf), start.incoming[cid].serial, bytes)
  {
    AllSeen(Members(order), TotalChunks(|bytes|));
    hide TotalChunks, Progress;
  }

  lemma NoMembers(order: seq<nat>)
    ensures Members(order) == {} <==> order == []
  {
    if |order| > 0 {
      assert order[0] in Members(order);
    }
  }

  /** Metadata, some honest chunks but not all, metadata again and then every honest
      chunk: the file arrives if and only if the second announcement came before the
      first chunk. */
  lemma SecondMetaIsHarmlessIffEarly(s: State, peer: string, cid: string, bytes: Bytes, first: seq<nat>,
                                     second: seq<nat>, hashOf: Bytes -> string)
    requires Fresh(s, cid, peer) && |bytes| <= MAX_FILE_BYTES && hashOf(bytes) == cid
    requires Indices(first, bytes) && |Members(first)| < TotalChunks(|bytes|)
    requires Indices(second, bytes) && CoversAll(second, bytes)
    ensures var done := FeedChunks(Announce(Feed(s, peer, cid, bytes, first), peer, cid, bytes),
                                   peer, cid, bytes, second);
            var serial := s.incoming[cid].serial;
            && (Yields(OnHashed(done, |s.hashing|, hashOf), serial, bytes) <==> Members(first) == {})
            && (Members(first) != {} ==> Failed(done, serial))
  {
    TotalCovers(|bytes|);
    NoMembers(first);
    var serial := s.incoming[cid].serial;
    var again := Announce(Feed(s, peer, cid, bytes, first), peer, cid, bytes);
    var done := FeedChunks(again, peer, cid, bytes, second);
    if Members(first) == {} {
      AnnouncedAgainAtOnce(s, peer, cid, bytes);
      FeedChunksOnTrack(again, s, peer, cid, bytes, second);
      CompleteTrackYields(done, s, peer, cid, bytes, second, hashOf);
    } else {
      AnnouncedTwice(s, peer, cid, bytes, first);
      FeedDoomed(again, peer, cid, serial, bytes, second, |Members(first)|);
      EnoughChunksFail(done, peer, cid, serial, bytes, second, |Members(first)|);
      TransferSafety.OutcomesAreFinal(done, Hashed(|s.hashing|), hashOf, serial);
    }
    hide Feed, FeedChunks, Announce, OnHashed, TotalChunks;
  }

  /** If the first chunks were already all of them, the bytes are being hashed: the file
      still arrives unless another chunk comes before the hash, which fails it. */
  lemma SecondMetaAfterTheLastChunk(s: State, peer: string, cid: string, bytes: Bytes, first: seq<nat>,
                                    second: seq<nat>, hashOf: Bytes -> string)
    requires Fresh(s, cid, peer) && 0 < |bytes| <= MAX_FILE_BYTES && hashOf(bytes) == cid
    requires Indices(first, bytes) && CoversAll(first, bytes) && Indices(second, bytes)
    ensures var done := FeedChunks(Announce(Feed(s, peer, cid, bytes, first), peer, cid, bytes),
                                   peer, cid, bytes, second);
            Yields(OnHashed(done, |s.hashing|, hashOf), s.incoming[cid].serial, bytes) <==> second == []
  {
    var serial := s.incoming[cid].serial;
    var again := Announce(Feed(s, peer, cid, bytes, first), peer, cid, bytes);
    CompleteThenAnnounced(s, peer, cid, bytes, first);
    hide Announce, Feed, TotalChunks, FeedChunks;
    if second == [] {
      assert FeedChunks(again, peer, cid, bytes, second) == again by {
        FedNothing(again, peer, cid, bytes);
      }
    } else {
      ExtraChunksFail(again, peer, cid, bytes, second);
      var done := FeedChunks(again, peer, cid, bytes, second);
      TransferSafety.OutcomesAreFinal(done, Hashed(|s.hashing|), hashOf, serial);
      hide OnHashed;
    }
  }

  lemma FedNothing(s: State, peer: string, cid: string, bytes: Bytes)
    ensures FeedChunks(s, peer, cid, bytes, []) == s
  {
  }

  lemma CompleteThenAnnounced(s: State, peer: string, cid: string, bytes: Bytes, first: seq<nat>)
    requires Fresh(s, cid, peer) && 0 < |bytes| <= MAX_FILE_BYTES && Indices(first, bytes) && CoversAll(first, bytes)
    ensures var again := Announce(Feed(s, peer, cid, bytes, first), peer, cid, bytes);
            && Serves(again, peer, cid) && again.settled == s.settled
            && again.hashing == s.hashing + [Hashing(s.incoming[cid].serial, cid, bytes)]
            && var t := again.incoming[cid];
               && t.serial == s.incoming[cid].serial && t.chunks == map[] && t.total == TotalChunks(|bytes|) as real
               && t.bytesSeen == |bytes| && t.size == |bytes| as real
  {
    FeedOnTrack(s, peer, cid, bytes, first);
    SecondAnnouncement(Feed(s, peer, cid, bytes, first), s, peer, cid, bytes, Members(first));
    AllSeen(Members(first), TotalChunks(|bytes|));
    AllCovered(bytes, Members(first), TotalChunks(|bytes|));
    TotalCovers(|bytes|);
    hide Announce, Feed, TotalChunks, Covered, ChunkOf;
  }

  lemma {:induction false} AllCovered(bytes: Bytes, seen: set<nat>, n: nat)
    requires n <= TotalChunks(|bytes|) && forall k: nat :: k < n ==> k in seen
    ensures Covered(bytes, seen, n) == if n * CHUNK_BYTES < |bytes| then n * CHUNK_BYTES else |bytes|
  {
    if n > 0 {
      AllCovered(bytes, seen, n - 1);
      ChunkBounds(|bytes|, n - 1);
    }
  }

  /** Once everything has been counted, the next chunk is one too many. */
  lemma {:induction false} ExtraChunksFail(s: State, peer: string, cid: string, bytes: Bytes, order: seq<nat>)
    requires Serves(s, peer, cid) && s.incoming[cid].serial !in s.settled && s.incoming[cid].chunks == map[]
    requires s.incoming[cid].total == TotalChunks(|bytes|) as real
    requires s.incoming[cid].bytesSeen == |bytes| && s.incoming[cid].size == |bytes| as real
    requires Indices(order, bytes) && |order| > 0
    ensures var t := FeedChunks(s, peer, cid, bytes, order);
            Serves(t, peer, cid) && Failed(t, s.incoming[cid].serial)
  {
    var rest, i := order[..|order| - 1], order[|order| - 1];
    var before := FeedChunks(s, peer, cid, bytes, rest);
    if |rest| > 0 {
      ExtraChunksFail(s, peer, cid, bytes, rest);
      MessageKeepsTransfer(before, peer, cid, ChunkMsg(cid, bytes, i));
      TransferSafety.OutcomesAreFinal(before, Message(peer, ChunkMsg(cid, bytes, i)), b => "", s.incoming[cid].serial);
      hide OnMessage;
    } else {
      assert before == s;
      var chunk := ChunkOf(bytes, i);
      DecodeOfEncode(chunk);
      ChunkBounds(|bytes|, i);
      assert |chunk| > 0;
      hide Encode, Decode, ChunkOf, TotalChunks, OnChunk;
      RefusedStep(s, peer, cid, Key(i), Encode(chunk), chunk);
    }
  }

  /** A file of no chunks finishes with each announcement, and arrives. */
  lemma EmptyFileAnnouncedTwice(s: State, peer: string, cid: string, hashOf: Bytes -> string)
    requires Fresh(s, cid, peer) && hashOf([]) == cid
    ensures Yields(OnHashed(Announce(Announce(s, peer, cid, []), peer, cid, []), |s.hashing|, hashOf),
                   s.incoming[cid].serial, [])
  {
    TotalCovers(0);
    var s1 := Announce(s, peer, cid, []);
    var s2 := Announce(s1, peer, cid, []);
    assert s1.hashing == s.hashing + [Hashing(s.incoming[cid].serial, cid, [])];
    assert s2.hashing == s1.hashing + [Hashing(s.incoming[cid].serial, cid, [])];
    assert s2.settled == s.settled;
    hide Announce;
  }

  /** For instance with two chunks: the transfer counts chunk 0 twice and finishes
      without it. */
  lemma TwoChunksAnnouncedTwice(s: State, peer: string, cid: string, bytes: Bytes)
    requires Fresh(s, cid, peer) && CHUNK_BYTES < |bytes| <= 2 * CHUNK_BYTES
    ensures var again := Announce(Feed(s, peer, cid, bytes, [0]), peer, cid, bytes);
            var done := OnMessage(again, peer, ChunkMsg(cid, bytes, 1));
            var serial := s.incoming[cid].serial;
            serial in done.settled && done.settled[serial] == Rejected(MissingChunk)
  {
    assert TotalChunks(|bytes|) == 2;
    FeedOnTrack(s, peer, cid, bytes, [0]);
    assert Members([0]) == {0};
    var fed := Feed(s, peer, cid, bytes, [0]);
    SecondAnnouncement(fed, s, peer, cid, bytes, {0});
    var again := Announce(fed, peer, cid, bytes);
    var t, chunk := again.incoming[cid], ChunkOf(bytes, 1);
    assert Covered(bytes, {0}, 2) == CHUNK_BYTES by {
      assert Covered(bytes, {0}, 1) == |ChunkOf(bytes, 0)|;
    }
    assert t.received == 1 && t.bytesSeen == CHUNK_BYTES && |chunk| == |bytes| - CHUNK_BYTES;
    assert t.serial !in again.settled && t.chunks == map[] && t.total == 2.0 && t.length == 2;
    hide OnTrack, Announce, Feed, TotalChunks, Covered;
    LastOfTwo(again, peer, cid, bytes);
  }

  lemma LastOfTwo(s: State, peer: string, cid: string, bytes: Bytes)
    requires TotalChunks(|bytes|) == 2 && Serves(s, peer, cid)
    requires var t := s.incoming[cid];
             && t.received == 1 && t.chunks == map[] && t.total == 2.0 && t.length == 2 && t.serial !in s.settled
             && |ChunkOf(bytes, 1)| <= CHUNK_BYTES && (t.bytesSeen + |ChunkOf(bytes, 1)|) as real <= t.size
    ensures var done := OnMessage(s, peer, ChunkMsg(cid, bytes, 1));
            s.incoming[cid].serial in done.settled && done.settled[s.incoming[cid].serial] == Rejected(MissingChunk)
  {
    var chunk := ChunkOf(bytes, 1);
    DecodeOfEncode(chunk);
    hide Encode, Decode, ChunkOf, TotalChunks, OnChunk, Finish;
    AcceptedStep(s, peer, cid, Key(1), Encode(chunk), chunk);
    var u := Received(s.incoming[cid], Key(1), chunk);
    FinishFails(s.(incoming := s.incoming[cid := u]), u, {1});
  }
}
