/** What each message and event does to the transfers: who is listened to, what fails a
    transfer and how, what is taken, and what stays as it was. */
module TransferEffects {
  import opened Basics
  import opened Base64
  import opened FileTransfer

  function CidOf(msg: Msg): string {
    match msg
    case BlobMeta(cid, _, _) => cid
    case BlobChunk(cid, _, _) => cid
    case BlobErr(cid) => cid
  }

  /** Whoever is not asked for some content changes nothing by talking about it. */
  lemma StrangersAreIgnored(s: State, from: string, msg: Msg)
    requires !(CidOf(msg) in s.incoming && s.incoming[CidOf(msg)].peer == from)
    ensures OnMessage(s, from, msg) == s
  {
    hide Decode, Finish;
  }

  /** A message touches no transfer but the one of its content. */
  lemma OthersAreUntouched(s: State, from: string, msg: Msg, cid: string)
    requires cid != CidOf(msg)
    ensures var t := OnMessage(s, from, msg);
            && (cid in t.incoming <==> cid in s.incoming) && (cid in s.incoming ==> t.incoming[cid] == s.incoming[cid])
            && t.requested == s.requested
  {
    hide Decode, Assemble;
  }

  /** The transfer fails, unless its outcome is known, and everything else is as it was. */
  predicate Fails(s: State, t: State, serial: nat, failure: Failure) {
    && t.incoming == s.incoming && t.hashing == s.hashing && t.requested == s.requested
    && t.settled == if serial in s.settled then s.settled else s.settled[serial := Rejected(failure)]
  }

  /** An error of the peer that serves the content fails the transfer. */
  lemma ErrorFails(s: State, from: string, cid: string)
    requires cid in s.incoming && s.incoming[cid].peer == from
    ensures Fails(s, OnMessage(s, from, BlobErr(cid)), s.incoming[cid].serial, PeerError)
  {
  }

  /** Chunk `i` is there, and is what the bytes say between the two positions. */
  predicate Piece(bytes: Bytes, chunks: map<real, Bytes>, from: nat, to: nat, i: nat) {
    i as real in chunks && from <= to <= |bytes| && bytes[from..to] == chunks[i as real]
  }

  /** The chunks at 0, 1, ..., `n - 1`, one after the other. */
  ghost predicate Joins(bytes: Bytes, chunks: map<real, Bytes>, n: nat) {
    exists at: seq<nat> :: && |at| == n + 1 && at[0] == 0 && at[n] == |bytes|
                           && forall i: nat :: i < n ==> Piece(bytes, chunks, at[i], at[i + 1], i)
  }

  predicate Lacks(chunks: map<real, Bytes>, i: nat) {
    i as real !in chunks
  }

  ghost predicate Hole(chunks: map<real, Bytes>, n: nat) {
    exists i: nat :: i < n && Lacks(chunks, i)
  }

  lemma {:induction false} AssembleJoins(chunks: map<real, Bytes>, n: nat)
    ensures Assemble(chunks, n).None? <==> Hole(chunks, n)
    ensures Assemble(chunks, n).Some? ==> Joins(Assemble(chunks, n).value, chunks, n)
  {
    if n == 0 {
      var at: seq<nat> := [0];
      assert at[n] == |Assemble(chunks, n).value|;
    } else {
      AssembleJoins(chunks, n - 1);
      if Assemble(chunks, n).Some? {
        JoinsMore(Assemble(chunks, n - 1).value, chunks, n - 1);
      } else if Assemble(chunks, n - 1).Some? {
        assert Lacks(chunks, n - 1);
      }
    }
  }

  lemma JoinsMore(bytes: Bytes, chunks: map<real, Bytes>, n: nat)
    requires Joins(bytes, chunks, n) && n as real in chunks
    ensures Joins(bytes + chunks[n as real], chunks, n + 1)
  {
    var at: seq<nat> :| && |at| == n + 1 && at[0] == 0 && at[n] == |bytes|
                        && forall i: nat :: i < n ==> Piece(bytes, chunks, at[i], at[i + 1], i);
    var more, longer := bytes + chunks[n as real], at + [|bytes| + |chunks[n as real]|];
    forall i: nat | i < n + 1 ensures Piece(more, chunks, longer[i], longer[i + 1], i) {
      if i < n {
        assert Piece(bytes, chunks, at[i], at[i + 1], i) && longer[i] == at[i] && longer[i + 1] == at[i + 1];
        assert more[at[i]..at[i + 1]] == bytes[at[i]..at[i + 1]];
      }
    }
    assert |longer| == n + 2 && longer[0] == 0 && longer[n + 1] == |more|;
  }

  /** With all chunks there the joined bytes go to be hashed, and a hole fails the
      transfer. */
  ghost predicate Finishes(s: State, t: State, u: Transfer) {
    if Hole(u.chunks, u.length) then Fails(s, t, u.serial, MissingChunk)
    else && t.incoming == s.incoming && t.settled == s.settled && t.requested == s.requested
         && |t.hashing| == |s.hashing| + 1 && t.hashing[..|s.hashing|] == s.hashing
         && var h := t.hashing[|s.hashing|];
            h.serial == u.serial && h.cid == u.cid && Joins(h.bytes, u.chunks, u.length)
  }

  lemma FinishJoins(s: State, u: Transfer)
    ensures Finishes(s, Finish(s, u), u)
  {
    AssembleJoins(u.chunks, u.length);
    hide Assemble, Joins, Hole;
  }

  predicate InRange(size: Field, chunks: Field) {
    && size != NotANumber && chunks != NotANumber
    && 0.0 <= size.r <= 26214400.0 && 0.0 <= chunks.r <= 1600.0
  }

  /** The numbers are stored, and a whole number of chunks starts the chunks over; the
      counters go on. */
  predicate StartsOver(u: Transfer, v: Transfer, size: real, chunks: real) {
    && v.total == chunks && v.size == size
    && (if chunks == chunks.Floor as real then v.chunks == map[] && v.length == chunks.Floor
        else v.chunks == u.chunks && v.length == u.length)
    && v.serial == u.serial && v.cid == u.cid && v.peer == u.peer
    && v.received == u.received && v.bytesSeen == u.bytesSeen
  }

  /** The transfer's record becomes `v`, which is finished if it is complete. */
  ghost predicate Becomes(s: State, t: State, cid: string, v: Transfer, complete: bool) {
    var s1 := State(s.incoming[cid := v], s.hashing, s.settled, s.requested);
    if complete then Finishes(s1, t, v) else t == s1
  }

  /** Metadata of the serving peer fails the transfer unless both numbers are in range; it
      then starts the chunks over, for a whole number of them, and finishes an empty file. */
  lemma MetaEffect(s: State, from: string, cid: string, size: Field, chunks: Field)
    requires cid in s.incoming && s.incoming[cid].peer == from
    ensures var t := OnMessage(s, from, BlobMeta(cid, size, chunks));
            !InRange(size, chunks) ==> Fails(s, t, s.incoming[cid].serial, BadMeta)
    ensures var t := OnMessage(s, from, BlobMeta(cid, size, chunks));
            InRange(size, chunks) ==>
              && cid in t.incoming && StartsOver(s.incoming[cid], t.incoming[cid], size.r, chunks.r)
              && Becomes(s, t, cid, t.incoming[cid], chunks.r == 0.0)
  {
    hide Assemble, Joins, Hole, Finish, Finishes;
    if GoodMeta(size, chunks) {
      var v := Announced(s.incoming[cid], size.r, chunks.r);
      FinishJoins(s.(incoming := s.incoming[cid := v]), v);
      FinishKeepsIncoming(s.(incoming := s.incoming[cid := v]), v);
    }
  }

  /** What a chunk is when it is not taken, and not a failure: without metadata before it,
      out of range, or there already. */
  predicate Passes(u: Transfer, idx: Field) {
    u.total < 0.0 || idx == NotANumber || idx.r < 0.0 || idx.r >= u.total || idx.r in u.chunks
  }

  predicate Oversized(u: Transfer, bytes: Bytes) {
    |bytes| > 16384 || u.size < (u.bytesSeen + |bytes|) as real
  }

  /** Counted and held at its index. */
  predicate Takes(u: Transfer, v: Transfer, idx: real, bytes: Bytes) {
    && v.chunks == u.chunks[idx := bytes] && v.bytesSeen == u.bytesSeen + |bytes| && v.received == u.received + 1
    && v.length == (if idx == idx.Floor as real && u.length <= idx.Floor then idx.Floor + 1 else u.length)
    && v.serial == u.serial && v.cid == u.cid && v.peer == u.peer && v.total == u.total && v.size == u.size
  }

  /** A chunk of the serving peer is passed over, or fails the transfer because it cannot be
      decoded, is longer than 16 KiB or more than was announced, or is taken. The last of
      the announced number finishes the transfer. */
  lemma ChunkEffect(s: State, from: string, cid: string, idx: Field, data: string)
    requires cid in s.incoming && s.incoming[cid].peer == from
    ensures var t, u, d := OnMessage(s, from, BlobChunk(cid, idx, data)), s.incoming[cid], Decode(data);
            && (Passes(u, idx) ==> t == s)
            && (!Passes(u, idx) && d.Malformed? ==> Fails(s, t, u.serial, Undecodable))
            && (!Passes(u, idx) && d.Plain? && Oversized(u, d.bytes) ==> Fails(s, t, u.serial, TooBig))
    ensures var t, u, d := OnMessage(s, from, BlobChunk(cid, idx, data)), s.incoming[cid], Decode(data);
            !Passes(u, idx) && d.Plain? && !Oversized(u, d.bytes) ==>
              && cid in t.incoming && Takes(u, t.incoming[cid], idx.r, d.bytes)
              && Becomes(s, t, cid, t.incoming[cid], (u.received + 1) as real == u.total)
  {
    hide Assemble, Joins, Hole, Finish, Finishes, Decode;
    var u, d := s.incoming[cid], Decode(data);
    if !Passes(u, idx) && d.Plain? {
      var v := Received(u, idx.r, d.bytes);
      FinishJoins(s.(incoming := s.incoming[cid := v]), v);
      FinishKeepsIncoming(s.(incoming := s.incoming[cid := v]), v);
    }
  }

  lemma FinishKeepsIncoming(s: State, u: Transfer)
    ensures Finish(s, u).incoming == s.incoming
  {
    hide Assemble;
  }

  /** A hash settles its transfer, once, with the bytes if they are the ones asked for and
      as a failure if not. */
  lemma HashEffect(s: State, k: nat, hashOf: Bytes -> string)
    requires k < |s.hashing|
    ensures var t, h := OnHashed(s, k, hashOf), s.hashing[k];
            && t.hashing == s.hashing[..k] + s.hashing[k + 1..]
            && t.incoming == s.incoming && t.requested == s.requested
            && (forall n :: n in t.settled <==> n in s.settled || n == h.serial)
            && (forall n :: n in s.settled ==> t.settled[n] == s.settled[n])
            && (h.serial !in s.settled ==>
                  t.settled[h.serial] == if h.cid == hashOf(h.bytes) then Resolved(h.bytes) else Rejected(WrongHash))
  {
  }

  predicate Begins(u: Transfer, serial: nat, cid: string, peer: string) {
    && u.serial == serial && u.cid == cid && u.peer == peer && u.total < 0.0
    && u.chunks == map[] && u.length == 0 && u.received == 0 && u.bytesSeen == 0
  }

  /** A request is refused while the content is being fetched; otherwise a transfer that has
      heard nothing yet waits for the peer, or, if nothing could be sent, has failed. */
  lemma RequestEffect(s: State, cid: string, peer: string, sent: bool)
    ensures var t, serial := Request(s, cid, peer, sent), |s.requested|;
            if cid in s.incoming then t == s
            else
              && t.requested == s.requested + [cid] && t.hashing == s.hashing
              && if !sent then t.incoming == s.incoming
                               && Fails(State(s.incoming, s.hashing, s.settled, t.requested), t, serial, NotSent)
                 else && t.settled == s.settled && cid in t.incoming && t.incoming == s.incoming[cid := t.incoming[cid]]
                      && Begins(t.incoming[cid], serial, cid, peer)
  {
  }

  /** A transfer that nobody feeds fails and is forgotten; a settled one is forgotten. */
  lemma EndEffects(s: State, cid: string)
    ensures var t := OnTimeout(s, cid);
            if cid in s.incoming
            then t.incoming == s.incoming - {cid}
                 && Fails(State(t.incoming, s.hashing, s.settled, s.requested), t, s.incoming[cid].serial, TimedOut)
            else t == s
    ensures Cleanup(s, cid) == if cid in s.incoming && s.incoming[cid].serial in s.settled
                               then s.(incoming := s.incoming - {cid}) else s
  {
  }

  /** `cid:sha256:` and 64 lower-case hexadecimal digits. */
  predicate Names(cid: string) {
    |cid| == 75 && "cid:sha256:" <= cid && forall c :: c in cid[11..] ==> c in "0123456789abcdef"
  }

  lemma NamesIsCid(cid: string)
    ensures Names(cid) <==> IsCid(cid)
  {
    forall c ensures c in "0123456789abcdef" <==> '0' <= c <= '9' || 'a' <= c <= 'f' {
      HexLetter(c);
    }
    if |cid| == 75 {
      var hex := cid[11..];
      assert forall k :: 11 <= k < 75 ==> cid[k] == hex[k - 11] && hex[k - 11] in hex;
      if IsCid(cid) {
        forall c | c in hex ensures c in "0123456789abcdef" {
          var k :| 0 <= k < |hex| && hex[k] == c;
          assert cid[k + 11] == c;
        }
      }
    }
  }

  /** A request is answered if and only if it names some content: with an error if there is
      none under it, and otherwise with the size, the number of chunks, and every chunk of
      16 KiB, the last one shorter. */
  lemma RequestsAnswered(cid: string, blob: Option<Bytes>)
    ensures !Names(cid) <==> Served(cid, blob) == []
    ensures Names(cid) && blob == None ==> Served(cid, blob) == [BlobErr(cid)]
    ensures Names(cid) && blob != None ==>
              var msgs := Served(cid, blob);
              && |msgs| > 0 && Announcement(msgs[0], cid, blob.value, |msgs| - 1)
              && forall i :: 1 <= i < |msgs| ==> Chunk(msgs[i], cid, blob.value, i - 1)
  {
    NamesIsCid(cid);
    hide Names, IsCid, Encode, Decode;
    if blob.Some? {
      var n := TotalChunks(|blob.value|);
      forall i | 0 <= i < n ensures Chunk(ChunkMsg(cid, blob.value, i), cid, blob.value, i) {
        DecodeOfEncode(ChunkOf(blob.value, i));
      }
    }
  }

  /** The size, and how many pieces of 16 KiB it takes. */
  predicate Announcement(msg: Msg, cid: string, bytes: Bytes, n: nat) {
    && msg.BlobMeta? && msg.cid == cid && msg.size == Num(|bytes| as real) && msg.chunks == Num(n as real)
    && (n - 1) * 16384 < |bytes| <= n * 16384
  }

  predicate Chunk(msg: Msg, cid: string, bytes: Bytes, i: nat) {
    && msg.BlobChunk? && msg.cid == cid && msg.idx == Num(i as real) && i * 16384 < |bytes|
    && Decode(msg.data) == Plain(bytes[i * 16384..if (i + 1) * 16384 < |bytes| then (i + 1) * 16384 else |bytes|])
  }
}
