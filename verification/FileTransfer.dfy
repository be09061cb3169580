/** Chunked transfer of content-addressed files: what each message does to the
    transfers in flight, for honest and for hostile peers. */
module FileTransfer {
  import opened Basics
  import opened Base64

  const CHUNK_BYTES: nat := 16384
  const MAX_FILE_BYTES: nat := 26214400
  const MAX_CHUNKS: nat := 1600

  /** A field of a message, which a hostile peer may fill with anything. */
  datatype Field = NotANumber | Num(r: real)

  datatype Msg =
    | BlobMeta(cid: string, size: Field, chunks: Field)
    | BlobChunk(cid: string, idx: Field, data: string)
    | BlobErr(cid: string)

  datatype Failure = BadMeta | Undecodable | TooBig | MissingChunk | WrongHash | PeerError | TimedOut | NotSent

  datatype Outcome = Resolved(bytes: Bytes) | Rejected(failure: Failure)

  /** `chunks` are the properties of the chunk array, `length` is its length, and
      `total` is negative until the metadata has come. */
  datatype Transfer = Transfer(serial: nat, cid: string, peer: string, chunks: map<real, Bytes>, length: nat,
                               received: nat, total: real, size: real, bytesSeen: nat)

  /** Assembled bytes that wait for their hash. */
  datatype Hashing = Hashing(serial: nat, cid: string, bytes: Bytes)

  /** `requested` lists the content id of every transfer ever started, by serial
      number; `settled` says how its promise was settled. */
  datatype State = State(incoming: map<string, Transfer>, hashing: seq<Hashing>, settled: map<nat, Outcome>,
                         requested: seq<string>)

  // ------------------------------------------------------------------- steps

  /** A promise is settled once. */
  function Settle(s: State, serial: nat, o: Outcome): State {
    if serial in s.settled then s else s.(settled := s.settled[serial := o])
  }

  /** An index as the number it is. */
  function Key(i: nat): real {
    i as real
  }

  /** The first `n` chunks joined, if none is missing. */
  function Assemble(chunks: map<real, Bytes>, n: nat): Option<Bytes> {
    if n == 0 then Some([]) else
      var before := Assemble(chunks, n - 1);
      if before.Some? && Key(n - 1) in chunks then Some(before.value + chunks[Key(n - 1)]) else None
  }

  function Finish(s: State, t: Transfer): State {
    match Assemble(t.chunks, t.length)
    case None => Settle(s, t.serial, Rejected(MissingChunk))
    case Some(bytes) => s.(hashing := s.hashing + [Hashing(t.serial, t.cid, bytes)])
  }

  predicate Serves(s: State, from: string, cid: string) {
    cid in s.incoming && s.incoming[cid].peer == from
  }

  predicate GoodMeta(size: Field, chunks: Field) {
    && size.Num? && chunks.Num? && 0.0 <= size.r <= MAX_FILE_BYTES as real && 0.0 <= chunks.r <= MAX_CHUNKS as real
  }

  /** A fractional count makes the array constructor throw after the announced
      numbers were stored. The counters start over in no case. */
  function Announced(t: Transfer, size: real, chunks: real): Transfer
    requires 0.0 <= chunks
  {
    var u := t.(total := chunks, size := size);
    if IsWhole(chunks) then u.(chunks := map[], length := chunks.Floor) else u
  }

  function OnMeta(s: State, from: string, cid: string, size: Field, chunks: Field): State {
    if !Serves(s, from, cid) then s
    else if !GoodMeta(size, chunks) then Settle(s, s.incoming[cid].serial, Rejected(BadMeta))
    else
      var t := Announced(s.incoming[cid], size.r, chunks.r);
      var s1 := s.(incoming := s.incoming[cid := t]);
      if chunks.r == 0.0 then Finish(s1, t) else s1
  }

  function MaxLength(length: nat, idx: real): nat
    requires 0.0 <= idx
  {
    if IsWhole(idx) && idx.Floor >= length then idx.Floor + 1 else length
  }

  function Received(t: Transfer, idx: real, bytes: Bytes): Transfer
    requires 0.0 <= idx
  {
    t.(bytesSeen := t.bytesSeen + |bytes|, chunks := t.chunks[idx := bytes], length := MaxLength(t.length, idx),
       received := t.received + 1)
  }

  function OnChunk(s: State, from: string, cid: string, idx: Field, data: string): State {
    if !Serves(s, from, cid) || s.incoming[cid].total < 0.0 then s
    else if idx.NotANumber? || idx.r < 0.0 || idx.r >= s.incoming[cid].total then s
    else if idx.r in s.incoming[cid].chunks then s
    else
      var t, decoded := s.incoming[cid], Decode(data);
      if decoded.Malformed? then Settle(s, t.serial, Rejected(Undecodable))
      else if |decoded.bytes| > CHUNK_BYTES || (t.bytesSeen + |decoded.bytes|) as real > t.size
      then Settle(s, t.serial, Rejected(TooBig))
      else
        var u := Received(t, idx.r, decoded.bytes);
        var s1 := s.(incoming := s.incoming[cid := u]);
        if u.received as real == u.total then Finish(s1, u) else s1
  }

  function OnMessage(s: State, from: string, msg: Msg): State {
    match msg
    case BlobMeta(cid, size, chunks) => OnMeta(s, from, cid, size, chunks)
    case BlobChunk(cid, idx, data) => OnChunk(s, from, cid, idx, data)
    case BlobErr(cid) => if Serves(s, from, cid) then Settle(s, s.incoming[cid].serial, Rejected(PeerError)) else s
  }

  /** `hashOf` is the content id of some bytes. */
  function OnHashed(s: State, k: nat, hashOf: Bytes -> string): State {
    if k >= |s.hashing| then s else
      var h := s.hashing[k];
      Settle(s.(hashing := s.hashing[..k] + s.hashing[k + 1..]), h.serial,
             if hashOf(h.bytes) == h.cid then Resolved(h.bytes) else Rejected(WrongHash))
  }

  function Request(s: State, cid: string, peer: string, sent: bool): State {
    if cid in s.incoming then s else
      var serial := |s.requested|;
      var s1 := s.(requested := s.requested + [cid]);
      if sent then s1.(incoming := s1.incoming[cid := Transfer(serial, cid, peer, map[], 0, 0, -1.0, 0.0, 0)])
      else Settle(s1, serial, Rejected(NotSent))
  }

  function OnTimeout(s: State, cid: string): State {
    if cid !in s.incoming then s
    else Settle(s.(incoming := s.incoming - {cid}), s.incoming[cid].serial, Rejected(TimedOut))
  }

  /** A settled transfer leaves the table some time after it was settled. */
  function Cleanup(s: State, cid: string): State {
    if cid in s.incoming && s.incoming[cid].serial in s.settled then s.(incoming := s.incoming - {cid}) else s
  }

  // ----------------------------------------------------------------- serving

  function TotalChunks(n: nat): nat {
    (n + CHUNK_BYTES - 1) / CHUNK_BYTES
  }

  function ChunkOf(bytes: Bytes, i: nat): Bytes
    requires i < TotalChunks(|bytes|)
  {
    bytes[i * CHUNK_BYTES..Min((i + 1) * CHUNK_BYTES, |bytes|)]
  }

  function MetaOf(cid: string, bytes: Bytes): Msg {
    BlobMeta(cid, Num(|bytes| as real), Num(TotalChunks(|bytes|) as real))
  }

  function ChunkMsg(cid: string, bytes: Bytes, i: nat): Msg
    requires i < TotalChunks(|bytes|)
  {
    BlobChunk(cid, Num(Key(i)), Encode(ChunkOf(bytes, i)))
  }

  predicate IsCid(cid: string) {
    |cid| == 75 && cid[..11] == "cid:sha256:"
    && forall k :: 11 <= k < 75 ==> '0' <= cid[k] <= '9' || 'a' <= cid[k] <= 'f'
  }

  /** What a request for `cid` is answered with. */
  function Served(cid: string, blob: Option<Bytes>): seq<Msg> {
    if !IsCid(cid) then []
    else if blob.None? then [BlobErr(cid)]
    else
      var n := TotalChunks(|blob.value|);
      [MetaOf(cid, blob.value)] + seq(n, i requires 0 <= i < n => ChunkMsg(cid, blob.value, i))
  }

  // -------------------------------------------------------------------- runs

  datatype Op =
    | Start(cid: string, peer: string, sent: bool)
    | Message(from: string, msg: Msg)
    | Hashed(k: nat)
    | Timeout(cid: string)
    | Settled(cid: string)

  function Init(): State {
    State(map[], [], map[], [])
  }

  function Step(s: State, op: Op, hashOf: Bytes -> string): State {
    match op
    case Start(cid, peer, sent) => Request(s, cid, peer, sent)
    case Message(from, msg) => OnMessage(s, from, msg)
    case Hashed(k) => OnHashed(s, k, hashOf)
    case Timeout(cid) => OnTimeout(s, cid)
    case Settled(cid) => Cleanup(s, cid)
  }

  function Run(ops: seq<Op>, hashOf: Bytes -> string): State {
    if |ops| == 0 then Init() else Step(Run(ops[..|ops| - 1], hashOf), ops[|ops| - 1], hashOf)
  }
}
