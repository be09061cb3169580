/** The file service as the object it is: messages update the transfers in flight,
    and finished chunks are copied into one buffer. */
module FileServiceObject {
  import opened Basics
  import opened Base64
  import opened FileTransfer
  import TransferSafety
  import TransferEffects

  /** The bytes of the chunks present among the first `n`. */
  function Present(chunks: map<real, Bytes>, n: nat): nat {
    if n == 0 then 0 else Present(chunks, n - 1) + if Key(n - 1) in chunks then |chunks[Key(n - 1)]| else 0
  }

  lemma {:induction false} PresentGrows(chunks: map<real, Bytes>, m: nat, n: nat)
    requires m <= n
    ensures Present(chunks, m) <= Present(chunks, n)
  {
    if m < n {
      PresentGrows(chunks, m, n - 1);
    }
  }

  lemma {:induction false} NoneStays(chunks: map<real, Bytes>, m: nat, n: nat)
    requires m <= n && Assemble(chunks, m) == None
    ensures Assemble(chunks, n) == None
  {
    if m < n {
      NoneStays(chunks, m, n - 1);
    }
  }

  /** Joins the chunks in a buffer of their total size; fails at the first hole. */
  method AssembleBytes(chunks: map<real, Bytes>, length: nat) returns (r: Option<Bytes>)
    ensures r == Assemble(chunks, length)
  {
    var size := 0;
    for i := 0 to length
      invariant size == Present(chunks, i)
    {
      size := size + if Key(i) in chunks then |chunks[Key(i)]| else 0;
    }
    var bytes := new Byte[size](_ => 0);
    var offset := 0;
    for i := 0 to length
      invariant offset == Present(chunks, i) <= size
      invariant Assemble(chunks, i) == Some(bytes[..offset])
    {
      if Key(i) !in chunks {
        NoneStays(chunks, i + 1, length);
        return None;
      }
      var chunk := chunks[Key(i)];
      PresentGrows(chunks, i + 1, length);
      ghost var before := bytes[..offset];
      CopyInto(bytes, offset, chunk);
      offset := offset + |chunk|;
      assert bytes[..offset] == before + chunk;
    }
    assert bytes[..offset] == bytes[..];
    r := Some(bytes[..]);
  }

  /** Writes `chunk` into the buffer from `offset` on. */
  method CopyInto(bytes: array<Byte>, offset: nat, chunk: Bytes)
    requires offset + |chunk| <= bytes.Length
    modifies bytes
    ensures bytes[..] == old(bytes[..offset]) + chunk + old(bytes[offset + |chunk|..])
  {
    forall j | 0 <= j < |chunk| {
      bytes[offset + j] := chunk[j];
    }
  }

  class FileService {
    const hashOf: Bytes -> string
    var incoming: map<string, Transfer>
    var hashing: seq<Hashing>
    var settled: map<nat, Outcome>
    var requested: seq<string>

    ghost function View(): State
      reads this
    {
      State(incoming, hashing, settled, requested)
    }

    /** Resolved bytes are the requested ones, and no transfer holds more than it
        counted or than 25 MiB. */
    ghost predicate Valid()
      reads this
    {
      TransferSafety.Inv(View(), hashOf)
    }

    constructor (hashOf: Bytes -> string)
      ensures Valid() && View() == Init() && this.hashOf == hashOf
    {
      this.hashOf := hashOf;
      incoming, hashing, settled, requested := map[], [], map[], [];
    }

    method SettleWith(serial: nat, o: Outcome)
      modifies `settled
      ensures View() == Settle(old(View()), serial, o)
    {
      if serial !in settled {
        settled := settled[serial := o];
      }
    }

    method FinishTransfer(t: Transfer)
      modifies `settled, `hashing
      ensures View() == Finish(old(View()), t)
    {
      var joined := AssembleBytes(t.chunks, t.length);
      if joined.None? {
        SettleWith(t.serial, Rejected(MissingChunk));
        return;
      }
      hashing := hashing + [Hashing(t.serial, t.cid, joined.value)];
    }

    method HandleMeta(from: string, cid: string, size: Field, chunks: Field)
      requires Valid()
      modifies `incoming, `settled, `hashing
      ensures Valid() && View() == OnMeta(old(View()), from, cid, size, chunks)
    {
      TransferSafety.MetaKeeps(View(), from, cid, size, chunks, hashOf);
      hide *;
      TakeMeta(from, cid, size, chunks);
    }

    method TakeMeta(from: string, cid: string, size: Field, chunks: Field)
      modifies `incoming, `settled, `hashing
      ensures View() == OnMeta(old(View()), from, cid, size, chunks)
    {
      hide Finish;
      if cid !in incoming || incoming[cid].peer != from {
        return;
      }
      var transfer := incoming[cid];
      if size.NotANumber? || chunks.NotANumber? || size.r < 0.0 || size.r > MAX_FILE_BYTES as real
         || chunks.r < 0.0 || chunks.r > MAX_CHUNKS as real {
        SettleWith(transfer.serial, Rejected(BadMeta));
        return;
      }
      transfer := transfer.(total := chunks.r, size := size.r);
      incoming := incoming[cid := transfer];
      if !IsWhole(chunks.r) {
        return;
      }
      transfer := transfer.(chunks := map[], length := chunks.r.Floor);
      incoming := incoming[cid := transfer];
      assert incoming == old(incoming)[cid := transfer];
      if chunks.r == 0.0 {
        FinishTransfer(transfer);
      }
    }

    method HandleChunk(from: string, cid: string, idx: Field, data: string)
      requires Valid()
      modifies `incoming, `settled, `hashing
      ensures Valid() && View() == OnChunk(old(View()), from, cid, idx, data)
    {
      TransferSafety.ChunkKeeps(View(), from, cid, idx, data, hashOf);
      hide *;
      TakeChunk(from, cid, idx, data);
    }

    method TakeChunk(from: string, cid: string, idx: Field, data: string)
      modifies `incoming, `settled, `hashing
      ensures View() == OnChunk(old(View()), from, cid, idx, data)
    {
      hide Finish, Decode;
      if cid !in incoming || incoming[cid].peer != from || incoming[cid].total < 0.0 {
        return;
      }
      var transfer := incoming[cid];
      if idx.NotANumber? || idx.r < 0.0 || idx.r >= transfer.total {
        return;
      }
      if idx.r in transfer.chunks {
        return;
      }
      var decoded := Decode(data);
      if decoded.Malformed? {
        SettleWith(transfer.serial, Rejected(Undecodable));
        return;
      }
      var bytes := decoded.bytes;
      if |bytes| > CHUNK_BYTES || (transfer.bytesSeen + |bytes|) as real > transfer.size {
        SettleWith(transfer.serial, Rejected(TooBig));
        return;
      }
      transfer := transfer.(bytesSeen := transfer.bytesSeen + |bytes|);
      transfer := transfer.(chunks := transfer.chunks[idx.r := bytes], length := MaxLength(transfer.length, idx.r));
      transfer := transfer.(received := transfer.received + 1);
      incoming := incoming[cid := transfer];
      if transfer.received as real == transfer.total {
        FinishTransfer(transfer);
      }
    }

    method HandleError(from: string, cid: string)
      requires Valid()
      modifies `settled
      ensures Valid() && View() == OnMessage(old(View()), from, BlobErr(cid))
      ensures if cid in incoming && incoming[cid].peer == from
              then TransferEffects.Fails(old(View()), View(), incoming[cid].serial, PeerError)
              else View() == old(View())
    {
      TransferSafety.StepKeeps(View(), Message(from, BlobErr(cid)), hashOf);
      hide TransferSafety.Inv;
      if cid in incoming && incoming[cid].peer == from {
        SettleWith(incoming[cid].serial, Rejected(PeerError));
      }
    }

    method HandleHashed(k: nat)
      requires Valid()
      modifies `settled, `hashing
      ensures Valid() && View() == OnHashed(old(View()), k, hashOf)
    {
      TransferSafety.HashedKeeps(View(), k, hashOf);
      hide TransferSafety.Inv;
      if k >= |hashing| {
        return;
      }
      var h := hashing[k];
      hashing := hashing[..k] + hashing[k + 1..];
      if hashOf(h.bytes) != h.cid {
        SettleWith(h.serial, Rejected(WrongHash));
      } else {
        SettleWith(h.serial, Resolved(h.bytes));
      }
    }

    method RequestFrom(peer: string, cid: string, sent: bool)
      requires Valid()
      modifies `incoming, `settled, `requested
      ensures Valid() && View() == Request(old(View()), cid, peer, sent)
    {
      TransferSafety.RequestKeeps(View(), cid, peer, sent, hashOf);
      hide TransferSafety.Inv;
      if cid in incoming {
        return;
      }
      var serial := |requested|;
      requested := requested + [cid];
      ghost var before := incoming;
      incoming := incoming[cid := Transfer(serial, cid, peer, map[], 0, 0, -1.0, 0.0, 0)];
      if !sent {
        incoming := incoming - {cid};
        assert incoming == before;
        SettleWith(serial, Rejected(NotSent));
      }
    }

    /** No progress for too long. */
    method HandleTimeout(cid: string)
      requires Valid()
      modifies `incoming, `settled
      ensures Valid() && View() == OnTimeout(old(View()), cid)
    {
      TransferSafety.StepKeeps(View(), Timeout(cid), hashOf);
      hide TransferSafety.Inv;
      if cid in incoming {
        var serial := incoming[cid].serial;
        incoming := incoming - {cid};
        SettleWith(serial, Rejected(TimedOut));
      }
    }

    /** A settled transfer leaves the table. */
    method CleanUp(cid: string)
      requires Valid()
      modifies `incoming
      ensures Valid() && View() == Cleanup(old(View()), cid)
    {
      TransferSafety.RemoveKeeps(View(), cid, hashOf);
      hide TransferSafety.Inv;
      if cid in incoming && incoming[cid].serial in settled {
        incoming := incoming - {cid};
      }
    }

    /** Answers a request: the metadata, then every chunk in turn, as long as there is
        a channel and chunk `idx` goes out on it (`alive(idx)`). */
    method Serve(cid: string, blob: Option<Bytes>, channel: bool, alive: nat -> bool) returns (sent: seq<Msg>)
      ensures sent <= Served(cid, blob)
      ensures !IsCid(cid) || blob.None? ==> sent == Served(cid, blob)
      ensures IsCid(cid) && blob.Some? ==>
                && |sent| > 0
                && (forall idx :: 0 <= idx < |sent| - 1 ==> channel && alive(idx))
                && (|sent| - 1 < TotalChunks(|blob.value|) ==> !channel || !alive(|sent| - 1))
    {
      ServedShape(cid, blob);
      hide *;
      if !IsCid(cid) {
        return [];
      }
      if blob.None? {
        return [BlobErr(cid)];
      }
      sent := [MetaOf(cid, blob.value)];
      if channel {
        var chunks := Stream(cid, blob.value, alive);
        sent := sent + chunks;
      }
    }

    static method Stream(cid: string, bytes: Bytes, alive: nat -> bool) returns (sent: seq<Msg>)
      ensures |sent| <= TotalChunks(|bytes|)
      ensures forall idx :: 0 <= idx < |sent| ==> sent[idx] == ChunkMsg(cid, bytes, idx) && alive(idx)
      ensures |sent| < TotalChunks(|bytes|) ==> !alive(|sent|)
    {
      hide Encode, TotalChunks, ChunkOf;
      sent := [];
      for idx := 0 to TotalChunks(|bytes|)
        invariant |sent| == idx
        invariant forall i :: 0 <= i < idx ==> sent[i] == ChunkMsg(cid, bytes, i) && alive(i)
      {
        if !alive(idx) {
          return;
        }
        var chunk := ChunkOf(bytes, idx);
        sent := sent + [BlobChunk(cid, Num(Key(idx)), Encode(chunk))];
      }
    }
  }
  lemma ServedShape(cid: string, blob: Option<Bytes>)
    ensures !IsCid(cid) ==> Served(cid, blob) == []
    ensures IsCid(cid) && blob.None? ==> Served(cid, blob) == [BlobErr(cid)]
    ensures IsCid(cid) && blob.Some? ==>
              var all, bytes := Served(cid, blob), blob.value;
              && |all| == TotalChunks(|bytes|) + 1 && all[0] == MetaOf(cid, bytes)
              && forall i :: 0 <= i < TotalChunks(|bytes|) ==> all[i + 1] == ChunkMsg(cid, bytes, i)
  {
    hide IsCid, TotalChunks, ChunkMsg;
  }
}
