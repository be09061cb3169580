/** What no sequence of messages, however hostile, can break. */
module TransferSafety {
  import opened Base64
  import opened FileTransfer

  /** The bytes held by a chunk array, at whatever index they were put. */
  ghost function Weight(chunks: map<real, Bytes>): nat
    decreases |chunks|
  {
    if exists k :: k in chunks then
      var k :| k in chunks;
      assert (chunks - {k}).Keys == chunks.Keys - {k};
      |chunks[k]| + Weight(chunks - {k})
    else 0
  }

  lemma {:induction false} WeightOf(chunks: map<real, Bytes>, k: real)
    requires k in chunks
    ensures Weight(chunks) == |chunks[k]| + Weight(chunks - {k})
    decreases |chunks|
  {
    assert k in chunks.Keys && |chunks| > 0;
    var j :| j in chunks && Weight(chunks) == |chunks[j]| + Weight(chunks - {j});
    if j != k {
      WeightOf(chunks - {j}, k);
      WeightOf(chunks - {k}, j);
      assert chunks - {j} - {k} == chunks - {k} - {j};
    }
  }

  lemma WeightGrows(chunks: map<real, Bytes>, k: real, bytes: Bytes)
    requires k !in chunks
    ensures Weight(chunks[k := bytes]) == Weight(chunks) + |bytes|
  {
    WeightOf(chunks[k := bytes], k);
    assert chunks[k := bytes] - {k} == chunks;
  }

  /** What is assembled is not more than what is held. */
  lemma {:induction false} AssembledFits(chunks: map<real, Bytes>, n: nat)
    requires Assemble(chunks, n).Some?
    ensures |Assemble(chunks, n).value| <= Weight(chunks)
    decreases n
  {
    if n > 0 {
      var k := Key(n - 1);
      AssembleWithout(chunks, k, n - 1);
      AssembledFits(chunks - {k}, n - 1);
      WeightOf(chunks, k);
    }
  }

  lemma {:induction false} AssembleWithout(chunks: map<real, Bytes>, k: real, n: nat)
    requires n as real <= k
    ensures Assemble(chunks - {k}, n) == Assemble(chunks, n)
    decreases n
  {
    if n > 0 {
      AssembleWithout(chunks, k, n - 1);
    }
  }

  ghost predicate TransferOk(t: Transfer) {
    && Weight(t.chunks) <= t.bytesSeen <= MAX_FILE_BYTES && t.size <= MAX_FILE_BYTES as real
    && forall k :: k in t.chunks ==> |t.chunks[k]| <= CHUNK_BYTES
  }

  predicate Known(s: State, serial: nat, cid: string) {
    serial < |s.requested| && s.requested[serial] == cid
  }

  ghost predicate Genuine(s: State, hashOf: Bytes -> string) {
    forall n :: n in s.settled && s.settled[n].Resolved? ==>
      n < |s.requested| && hashOf(s.settled[n].bytes) == s.requested[n] && |s.settled[n].bytes| <= MAX_FILE_BYTES
  }

  ghost predicate Inv(s: State, hashOf: Bytes -> string) {
    && Genuine(s, hashOf)
    && (forall cid :: cid in s.incoming ==>
          TransferOk(s.incoming[cid]) && s.incoming[cid].cid == cid && Known(s, s.incoming[cid].serial, cid))
    && (forall h :: h in s.hashing ==> Known(s, h.serial, h.cid) && |h.bytes| <= MAX_FILE_BYTES)
  }

  lemma SettleKeeps(s: State, serial: nat, o: Outcome, hashOf: Bytes -> string)
    requires Inv(s, hashOf)
    requires o.Resolved? ==> Known(s, serial, hashOf(o.bytes)) && |o.bytes| <= MAX_FILE_BYTES
    ensures Inv(Settle(s, serial, o), hashOf)
  {
    hide TransferOk;
  }

  lemma UpdateKeeps(s: State, cid: string, t: Transfer, hashOf: Bytes -> string)
    requires Inv(s, hashOf) && cid in s.incoming && TransferOk(t) && t.cid == cid && t.serial == s.incoming[cid].serial
    ensures Inv(s.(incoming := s.incoming[cid := t]), hashOf)
  {
    hide TransferOk;
  }

  lemma FinishKeeps(s: State, cid: string, hashOf: Bytes -> string)
    requires Inv(s, hashOf) && cid in s.incoming
    ensures Inv(Finish(s, s.incoming[cid]), hashOf)
  {
    var t := s.incoming[cid];
    if Assemble(t.chunks, t.length).Some? {
      AssembledFits(t.chunks, t.length);
    }
    assert Weight(t.chunks) <= MAX_FILE_BYTES;
    hide Weight, Assemble, TransferOk, Genuine, Settle;
    SettleKeeps(s, t.serial, Rejected(MissingChunk), hashOf);
  }

  lemma AnnouncedOk(t: Transfer, size: real, chunks: real)
    requires TransferOk(t) && 0.0 <= chunks && size <= MAX_FILE_BYTES as real
    ensures TransferOk(Announced(t, size, chunks))
  {
    assert Weight(map[]) == 0;
    hide Weight;
  }

  lemma MetaKeeps(s: State, from: string, cid: string, size: Field, chunks: Field, hashOf: Bytes -> string)
    requires Inv(s, hashOf)
    ensures Inv(OnMeta(s, from, cid, size, chunks), hashOf)
  {
    hide Finish, Announced, TransferOk, Genuine, Known;
    if Serves(s, from, cid) {
      SettleKeeps(s, s.incoming[cid].serial, Rejected(BadMeta), hashOf);
      if GoodMeta(size, chunks) {
        AnnouncedOk(s.incoming[cid], size.r, chunks.r);
        AnnouncedSame(s.incoming[cid], size.r, chunks.r);
        var t := Announced(s.incoming[cid], size.r, chunks.r);
        UpdateKeeps(s, cid, t, hashOf);
        hide Inv, Settle;
        FinishKeeps(s.(incoming := s.incoming[cid := t]), cid, hashOf);
      }
    }
  }

  lemma AnnouncedSame(t: Transfer, size: real, chunks: real)
    requires 0.0 <= chunks
    ensures Announced(t, size, chunks).cid == t.cid && Announced(t, size, chunks).serial == t.serial
  {
  }

  lemma ReceivedOk(t: Transfer, idx: real, bytes: Bytes)
    requires TransferOk(t) && 0.0 <= idx && idx !in t.chunks && |bytes| <= CHUNK_BYTES
    requires (t.bytesSeen + |bytes|) as real <= t.size
    ensures TransferOk(Received(t, idx, bytes))
  {
    WeightGrows(t.chunks, idx, bytes);
    hide Weight;
  }

  lemma ChunkKeeps(s: State, from: string, cid: string, idx: Field, data: string, hashOf: Bytes -> string)
    requires Inv(s, hashOf)
    ensures Inv(OnChunk(s, from, cid, idx, data), hashOf)
  {
    hide Finish, TransferOk, Genuine, Known, Decode;
    if Serves(s, from, cid) && idx.Num? && 0.0 <= idx.r && idx.r !in s.incoming[cid].chunks {
      var t, decoded := s.incoming[cid], Decode(data);
      SettleKeeps(s, t.serial, Rejected(Undecodable), hashOf);
      SettleKeeps(s, t.serial, Rejected(TooBig), hashOf);
      if decoded.Plain? && |decoded.bytes| <= CHUNK_BYTES && (t.bytesSeen + |decoded.bytes|) as real <= t.size {
        var u := Received(t, idx.r, decoded.bytes);
        ReceivedOk(t, idx.r, decoded.bytes);
        UpdateKeeps(s, cid, u, hashOf);
        hide Inv, Settle;
        FinishKeeps(s.(incoming := s.incoming[cid := u]), cid, hashOf);
      }
    }
  }

  lemma HashedKeeps(s: State, k: nat, hashOf: Bytes -> string)
    requires Inv(s, hashOf)
    ensures Inv(OnHashed(s, k, hashOf), hashOf)
  {
    if k < |s.hashing| {
      var h := s.hashing[k];
      assert h in s.hashing;
      var s1 := s.(hashing := s.hashing[..k] + s.hashing[k + 1..]);
      assert Inv(s1, hashOf) by {
        hide TransferOk;
      }
      hide TransferOk, Genuine, Settle;
      SettleKeeps(s1, h.serial, if hashOf(h.bytes) == h.cid then Resolved(h.bytes) else Rejected(WrongHash), hashOf);
    }
  }

  lemma RequestKeeps(s: State, cid: string, peer: string, sent: bool, hashOf: Bytes -> string)
    requires Inv(s, hashOf)
    ensures Inv(Request(s, cid, peer, sent), hashOf)
  {
    var t := Transfer(|s.requested|, cid, peer, map[], 0, 0, -1.0, 0.0, 0);
    assert TransferOk(t) by {
      assert Weight(map[]) == 0;
    }
    hide TransferOk;
    if cid !in s.incoming {
      var s1 := s.(requested := s.requested + [cid]);
      assert Inv(s1, hashOf);
      hide Genuine;
      SettleKeeps(s1, t.serial, Rejected(NotSent), hashOf);
    }
  }

  lemma RemoveKeeps(s: State, cid: string, hashOf: Bytes -> string)
    requires Inv(s, hashOf)
    ensures Inv(s.(incoming := s.incoming - {cid}), hashOf)
  {
    hide TransferOk;
  }

  lemma StepKeeps(s: State, op: Op, hashOf: Bytes -> string)
    requires Inv(s, hashOf)
    ensures Inv(Step(s, op, hashOf), hashOf)
  {
    hide Inv, Settle, OnMeta, OnChunk, OnHashed, Request;
    match op
    case Start(cid, peer, sent) => RequestKeeps(s, cid, peer, sent, hashOf);
    case Message(from, BlobMeta(cid, size, chunks)) => MetaKeeps(s, from, cid, size, chunks, hashOf);
    case Message(from, BlobChunk(cid, idx, data)) => ChunkKeeps(s, from, cid, idx, data, hashOf);
    case Message(from, BlobErr(cid)) =>
      if Serves(s, from, cid) {
        SettleKeeps(s, s.incoming[cid].serial, Rejected(PeerError), hashOf);
      }
    case Hashed(k) => HashedKeeps(s, k, hashOf);
    case Timeout(cid) =>
      RemoveKeeps(s, cid, hashOf);
      if cid in s.incoming {
        SettleKeeps(s.(incoming := s.incoming - {cid}), s.incoming[cid].serial, Rejected(TimedOut), hashOf);
      }
    case Settled(cid) => RemoveKeeps(s, cid, hashOf);
  }

  lemma {:induction false} RunKeeps(ops: seq<Op>, hashOf: Bytes -> string)
    ensures Inv(Run(ops, hashOf), hashOf)
  {
    if |ops| > 0 {
      RunKeeps(ops[..|ops| - 1], hashOf);
      hide Inv, Step;
      StepKeeps(Run(ops[..|ops| - 1], hashOf), ops[|ops| - 1], hashOf);
    }
  }

  /** Whatever messages come, in whatever order, with metadata repeated at will: a
      resolved transfer yields bytes with the requested content id, and no transfer
      ever holds more chunk bytes than it counted, nor more than 25 MiB. */
  lemma HostileRunsAreSafe(ops: seq<Op>, hashOf: Bytes -> string)
    ensures var s := Run(ops, hashOf);
            && (forall n :: n in s.settled && s.settled[n].Resolved? ==>
                  n < |s.requested| && hashOf(s.settled[n].bytes) == s.requested[n])
            && (forall cid :: cid in s.incoming ==>
                  Weight(s.incoming[cid].chunks) <= s.incoming[cid].bytesSeen <= MAX_FILE_BYTES)
  {
    RunKeeps(ops, hashOf);
    hide Weight, Run;
  }

  /** A settled promise keeps its outcome. */
  lemma OutcomesAreFinal(s: State, op: Op, hashOf: Bytes -> string, serial: nat)
    requires serial in s.settled
    ensures serial in Step(s, op, hashOf).settled && Step(s, op, hashOf).settled[serial] == s.settled[serial]
  {
    hide Assemble, Decode;
  }
}
