/** An honest transfer: the served messages, in any order and with duplicates,
    yield exactly the file. */
module TransferDelivery {
  import opened Basics
  import opened Base64
  import opened FileTransfer

  // ------------------------------------------------------------ chunk algebra

  lemma ChunkBounds(n: nat, i: nat)
    requires i < TotalChunks(n)
    ensures i * CHUNK_BYTES < n && Min((i + 1) * CHUNK_BYTES, n) - i * CHUNK_BYTES <= CHUNK_BYTES
    ensures n <= TotalChunks(n) * CHUNK_BYTES
  {
  }

  /** The bytes of the chunks in `seen` among the first `n`. */
  function Covered(bytes: Bytes, seen: set<nat>, n: nat): nat
    requires n <= TotalChunks(|bytes|)
  {
    if n == 0 then 0 else Covered(bytes, seen, n - 1) + if n - 1 in seen then |ChunkOf(bytes, n - 1)| else 0
  }

  lemma {:induction false} CoveredAdd(bytes: Bytes, seen: set<nat>, i: nat, n: nat)
    requires n <= TotalChunks(|bytes|) && i < TotalChunks(|bytes|) && i !in seen
    ensures Covered(bytes, seen + {i}, n) == Covered(bytes, seen, n) + if i < n then |ChunkOf(bytes, i)| else 0
  {
    if n > 0 {
      hide ChunkOf;
      CoveredAdd(bytes, seen, i, n - 1);
    }
  }

  lemma {:induction false} CoveredFits(bytes: Bytes, seen: set<nat>, n: nat)
    requires n <= TotalChunks(|bytes|)
    ensures Covered(bytes, seen, n) <= Min(n * CHUNK_BYTES, |bytes|)
  {
    if n > 0 {
      CoveredFits(bytes, seen, n - 1);
      ChunkBounds(|bytes|, n - 1);
    }
  }

  lemma {:induction false} FullSet(seen: set<nat>, n: nat)
    requires (forall i :: i in seen ==> i < n) && |seen| == n
    ensures forall i: nat :: i < n ==> i in seen
  {
    if n > 0 {
      if n - 1 in seen {
        FullSet(seen - {n - 1}, n - 1);
      } else {
        SmallSet(seen, n - 1);
      }
    }
  }

  lemma {:induction false} SmallSet(seen: set<nat>, n: nat)
    requires forall i :: i in seen ==> i < n
    ensures |seen| <= n
  {
    if n > 0 {
      SmallSet(seen - {n - 1}, n - 1);
    } else {
      assert seen == {};
    }
  }

  lemma {:induction false} AssembleAll(bytes: Bytes, chunks: map<real, Bytes>, n: nat)
    requires n <= TotalChunks(|bytes|)
    requires forall i: nat :: i < n ==> Key(i) in chunks && chunks[Key(i)] == ChunkOf(bytes, i)
    ensures Assemble(chunks, n) == Some(bytes[..Min(n * CHUNK_BYTES, |bytes|)])
  {
    if n > 0 {
      AssembleAll(bytes, chunks, n - 1);
      ChunkBounds(|bytes|, n - 1);
      var i := n - 1;
      assert Assemble(chunks, i) == Some(bytes[..i * CHUNK_BYTES]);
      assert Key(i) in chunks && chunks[Key(i)] == ChunkOf(bytes, i);
      assert bytes[..i * CHUNK_BYTES] + ChunkOf(bytes, i) == bytes[..Min(n * CHUNK_BYTES, |bytes|)];
    }
  }

  // ------------------------------------------------------------ the transfer

  /** The transfer after the metadata and the chunks `seen`. */
  ghost predicate Progress(t: Transfer, bytes: Bytes, seen: set<nat>) {
    && t.length == TotalChunks(|bytes|) && t.total == t.length as real && t.size == |bytes| as real
    && (forall i :: i in seen ==> i < t.length && Key(i) in t.chunks && t.chunks[Key(i)] == ChunkOf(bytes, i))
    && (forall i: nat :: i !in seen ==> Key(i) !in t.chunks)
    && t.received == |seen| && t.bytesSeen == Covered(bytes, seen, t.length)
  }

  /** A fresh request of `cid` from `peer`. */
  predicate Fresh(s: State, cid: string, peer: string) {
    && Serves(s, peer, cid)
    && s.incoming[cid] == Transfer(s.incoming[cid].serial, cid, peer, map[], 0, 0, -1.0, 0.0, 0)
    && s.incoming[cid].serial !in s.settled
  }

  /** The honest chunks of `order`, delivered after the metadata. */
  function Feed(s: State, peer: string, cid: string, bytes: Bytes, order: seq<nat>): State
    requires forall j :: 0 <= j < |order| ==> order[j] < TotalChunks(|bytes|)
  {
    if |order| == 0 then OnMessage(s, peer, MetaOf(cid, bytes))
    else OnMessage(Feed(s, peer, cid, bytes, order[..|order| - 1]), peer, ChunkMsg(cid, bytes, order[|order| - 1]))
  }

  function Members(order: seq<nat>): set<nat> {
    set k | k in order
  }

  /** Where an honest delivery stands: nothing failed, and hashing starts with the
      last missing chunk. */
  ghost predicate OnTrack(s: State, start: State, peer: string, cid: string, bytes: Bytes, seen: set<nat>) {
    && s.settled == start.settled && s.requested == start.requested && Serves(s, peer, cid) && cid in start.incoming
    && s.incoming[cid].serial == start.incoming[cid].serial && s.incoming[cid].cid == cid
    && Progress(s.incoming[cid], bytes, seen)
    && s.hashing == start.hashing
                    + if |seen| == TotalChunks(|bytes|) then [Hashing(s.incoming[cid].serial, cid, bytes)] else []
  }

  lemma FinishYields(s: State, t: Transfer, bytes: Bytes, seen: set<nat>)
    requires Progress(t, bytes, seen) && |seen| == TotalChunks(|bytes|)
    ensures Finish(s, t) == s.(hashing := s.hashing + [Hashing(t.serial, t.cid, bytes)])
  {
    FullSet(seen, t.length);
    AssembleAll(bytes, t.chunks, t.length);
    TotalCovers(|bytes|);
    assert bytes[..|bytes|] == bytes;
  }

  lemma TotalCovers(n: nat)
    ensures Min(TotalChunks(n) * CHUNK_BYTES, n) == n
    ensures n <= MAX_FILE_BYTES ==> TotalChunks(n) <= MAX_CHUNKS
    ensures TotalChunks(n) == 0 <==> n == 0
  {
  }

  lemma MetaStarts(s: State, peer: string, cid: string, bytes: Bytes)
    requires Fresh(s, cid, peer) && |bytes| <= MAX_FILE_BYTES
    ensures OnTrack(OnMessage(s, peer, MetaOf(cid, bytes)), s, peer, cid, bytes, {})
  {
    TotalCovers(|bytes|);
    var n := TotalChunks(|bytes|);
    var t := Announced(s.incoming[cid], |bytes| as real, n as real);
    NothingCovered(bytes, n);
    hide TotalChunks, Covered;
    assert Progress(t, bytes, {});
    var s1 := s.(incoming := s.incoming[cid := t]);
    if n == 0 {
      FinishYields(s1, t, bytes, {});
    }
    hide Finish;
  }

  lemma {:induction false} NothingCovered(bytes: Bytes, n: nat)
    requires n <= TotalChunks(|bytes|)
    ensures Covered(bytes, {}, n) == 0
  {
    if n > 0 {
      NothingCovered(bytes, n - 1);
    }
  }

  lemma ChunkFits(t: Transfer, bytes: Bytes, seen: set<nat>, i: nat)
    requires Progress(t, bytes, seen) && i < TotalChunks(|bytes|) && i !in seen
    ensures |ChunkOf(bytes, i)| <= CHUNK_BYTES && (t.bytesSeen + |ChunkOf(bytes, i)|) as real <= t.size
    ensures Covered(bytes, seen + {i}, t.length) == t.bytesSeen + |ChunkOf(bytes, i)|
  {
    var n := TotalChunks(|bytes|);
    assert t.length == n && t.size == |bytes| as real && t.bytesSeen == Covered(bytes, seen, n);
    hide Progress;
    ChunkBounds(|bytes|, i);
    CoveredAdd(bytes, seen, i, n);
    CoveredFits(bytes, seen + {i}, n);
    hide TotalChunks, Covered;
  }

  lemma ChunkAccepted(t: Transfer, bytes: Bytes, seen: set<nat>, i: nat)
    requires Progress(t, bytes, seen) && i < TotalChunks(|bytes|) && i !in seen
    ensures Key(i) !in t.chunks
    ensures Progress(Received(t, Key(i), ChunkOf(bytes, i)), bytes, seen + {i})
  {
    ChunkFits(t, bytes, seen, i);
    hide TotalChunks, Covered, ChunkOf;
  }

  /** A well-formed chunk at a free index is stored. */
  lemma AcceptedStep(s: State, peer: string, cid: string, idx: real, data: string, bytes: Bytes)
    requires Serves(s, peer, cid) && 0.0 <= idx < s.incoming[cid].total && idx !in s.incoming[cid].chunks
    requires Decode(data) == Plain(bytes) && |bytes| <= CHUNK_BYTES
    requires (s.incoming[cid].bytesSeen + |bytes|) as real <= s.incoming[cid].size
    ensures var u := Received(s.incoming[cid], idx, bytes);
            var s1 := s.(incoming := s.incoming[cid := u]);
            OnChunk(s, peer, cid, Num(idx), data) == if u.received as real == u.total then Finish(s1, u) else s1
  {
    hide Decode, Finish;
  }

  lemma ChunkKeepsTrack(s: State, start: State, peer: string, cid: string, bytes: Bytes, seen: set<nat>, i: nat)
    requires OnTrack(s, start, peer, cid, bytes, seen) && i < TotalChunks(|bytes|)
    ensures OnTrack(OnMessage(s, peer, ChunkMsg(cid, bytes, i)), start, peer, cid, bytes, seen + {i})
  {
    DecodeOfEncode(ChunkOf(bytes, i));
    hide Encode, Decode, ChunkOf, TotalChunks, Finish, Covered;
    if i in seen {
      assert seen + {i} == seen;
      assert OnMessage(s, peer, ChunkMsg(cid, bytes, i)) == s;
    } else {
      NewChunk(s, start, peer, cid, bytes, seen, i);
    }
  }

  lemma NewChunk(s: State, start: State, peer: string, cid: string, bytes: Bytes, seen: set<nat>, i: nat)
    requires OnTrack(s, start, peer, cid, bytes, seen) && i < TotalChunks(|bytes|) && i !in seen
    requires Decode(Encode(ChunkOf(bytes, i))) == Plain(ChunkOf(bytes, i))
    ensures OnTrack(OnMessage(s, peer, ChunkMsg(cid, bytes, i)), start, peer, cid, bytes, seen + {i})
  {
    var t, chunk := s.incoming[cid], ChunkOf(bytes, i);
    StillFits(t, bytes, seen, i);
    ChunkAccepted(t, bytes, seen, i);
    var u := Received(t, Key(i), chunk);
    var s1 := s.(incoming := s.incoming[cid := u]);
    var full := |seen + {i}| == TotalChunks(|bytes|);
    if full {
      FinishYields(s1, u, bytes, seen + {i});
    }
    NextOnTrack(s, start, peer, cid, bytes, seen, i, u, if full then Finish(s1, u) else s1);
    hide Encode, Decode, ChunkOf, TotalChunks, Progress, Finish, OnChunk, OnTrack;
    AcceptedStep(s, peer, cid, Key(i), Encode(chunk), chunk);
  }

  lemma NextOnTrack(s: State, start: State, peer: string, cid: string, bytes: Bytes, seen: set<nat>, i: nat,
                    u: Transfer, s2: State)
    requires OnTrack(s, start, peer, cid, bytes, seen) && |seen| < TotalChunks(|bytes|)
    requires Progress(u, bytes, seen + {i}) && u.serial == s.incoming[cid].serial && u.cid == cid && u.peer == peer
    requires s2.incoming == s.incoming[cid := u] && s2.settled == s.settled && s2.requested == s.requested
    requires s2.hashing == s.hashing
                           + if |seen + {i}| == TotalChunks(|bytes|) then [Hashing(u.serial, cid, bytes)] else []
    ensures OnTrack(s2, start, peer, cid, bytes, seen + {i})
  {
    hide Progress, TotalChunks;
  }

  lemma StillFits(t: Transfer, bytes: Bytes, seen: set<nat>, i: nat)
    requires Progress(t, bytes, seen) && i < TotalChunks(|bytes|) && i !in seen
    ensures t.total == TotalChunks(|bytes|) as real && t.received == |seen| < TotalChunks(|bytes|)
    ensures |seen + {i}| == |seen| + 1
    ensures |ChunkOf(bytes, i)| <= CHUNK_BYTES && (t.bytesSeen + |ChunkOf(bytes, i)|) as real <= t.size
  {
    ChunkFits(t, bytes, seen, i);
    NotYetFull(seen, i, TotalChunks(|bytes|));
    hide TotalChunks, ChunkOf, Covered;
  }

  lemma NotYetFull(seen: set<nat>, i: nat, n: nat)
    requires i !in seen && i < n && (forall k :: k in seen ==> k < n)
    ensures |seen| < n && |seen + {i}| == |seen| + 1
  {
    SmallSet(seen + {i}, n);
  }

  lemma {:induction false} FeedOnTrack(s: State, peer: string, cid: string, bytes: Bytes, order: seq<nat>)
    requires Fresh(s, cid, peer) && |bytes| <= MAX_FILE_BYTES
    requires forall j :: 0 <= j < |order| ==> order[j] < TotalChunks(|bytes|)
    ensures OnTrack(Feed(s, peer, cid, bytes, order), s, peer, cid, bytes, Members(order))
  {
    hide OnTrack, OnMessage, MetaOf, ChunkMsg, TotalChunks, Fresh;
    if |order| == 0 {
      MetaStarts(s, peer, cid, bytes);
      assert Members(order) == {};
    } else {
      var rest, i := order[..|order| - 1], order[|order| - 1];
      assert order == rest + [i];
      FeedOnTrack(s, peer, cid, bytes, rest);
      ChunkKeepsTrack(Feed(s, peer, cid, bytes, rest), s, peer, cid, bytes, Members(rest), i);
      assert Members(order) == Members(rest) + {i};
      assert i == order[|order| - 1] < TotalChunks(|bytes|);
    }
  }

  /** The served metadata and then every served chunk, in any order and as often as
      may be, resolve the request with exactly the served bytes. */
  lemma DeliveryYieldsTheFile(s: State, peer: string, cid: string, bytes: Bytes, order: seq<nat>,
                              hashOf: Bytes -> string)
    requires Fresh(s, cid, peer) && |bytes| <= MAX_FILE_BYTES && hashOf(bytes) == cid
    requires forall j :: 0 <= j < |order| ==> order[j] < TotalChunks(|bytes|)
    requires forall k: nat :: k < TotalChunks(|bytes|) ==> k in order
    ensures var t := OnHashed(Feed(s, peer, cid, bytes, order), |s.hashing|, hashOf);
            var serial := s.incoming[cid].serial;
            serial in t.settled && t.settled[serial] == Resolved(bytes)
  {
    FeedOnTrack(s, peer, cid, bytes, order);
    var n := TotalChunks(|bytes|);
    hide TotalChunks;
    AllSeen(Members(order), n);
    hide Progress, Feed;
  }

  lemma {:induction false} AllSeen(seen: set<nat>, n: nat)
    requires forall k: nat :: k in seen <==> k < n
    ensures |seen| == n
  {
    if n > 0 {
      AllSeen(seen - {n - 1}, n - 1);
    } else {
      assert seen == {};
    }
  }

  /** What is fed is what the server sends. */
  lemma ServedIsFed(cid: string, bytes: Bytes, i: nat)
    requires IsCid(cid) && i < TotalChunks(|bytes|)
    ensures var msgs := Served(cid, Some(bytes));
            |msgs| == TotalChunks(|bytes|) + 1 && msgs[0] == MetaOf(cid, bytes)
              && msgs[i + 1] == ChunkMsg(cid, bytes, i)
  {
    hide Encode;
  }
}
