/** The name service: the merge rules of a replicated record set, and the
    namespace that binds each revocation to its author. */
module NameService {
  import opened Basics
  import opened Ordering
  import Identity

  const REVOKED_PREFIX: string := "revoked/"
  const PUBLIC_KEY_LENGTH: nat := 130

  /** A revocation of an invite, or any other content. */
  datatype Value = Revocation(inviteId: string) | Other(content: string)

  datatype Record = Record(network: string, name: string, value: Value, version: int, ttl: int, updatedAt: int,
                           author: string, signature: string)

  type Records = map<string, Record>

  // -------------------------------------------------------- revocation names

  function RevocationName(inviteId: string, author: string): string {
    REVOKED_PREFIX + inviteId + "/" + author
  }

  predicate StartsWith(s: string, prefix: string) {
    |prefix| <= |s| && s[..|prefix|] == prefix
  }

  /** The last position of `c` in `s`, or -1. */
  function LastIndexOf(s: string, c: char): (r: int)
    ensures -1 <= r < |s|
    ensures r >= 0 ==> s[r] == c
    ensures forall k :: r < k < |s| ==> s[k] != c
  {
    if |s| == 0 then -1
    else if s[|s| - 1] == c then |s| - 1
    else LastIndexOf(s[..|s| - 1], c)
  }

  predicate IsPublicKey(s: string) {
    |s| == PUBLIC_KEY_LENGTH && forall k :: 0 <= k < |s| ==> '0' <= s[k] <= '9' || 'a' <= s[k] <= 'f'
  }

  function ParseRevocationName(name: string): Option<(string, string)> {
    if !StartsWith(name, REVOKED_PREFIX) then None else
      var rest := name[|REVOKED_PREFIX|..];
      var slash := LastIndexOf(rest, '/');
      if slash <= 0 || slash == |rest| - 1 then None
      else if !IsPublicKey(rest[slash + 1..]) then None
      else Some((rest[..slash], rest[slash + 1..]))
  }

  /** The parser recognizes exactly what the printer writes for a non-empty invite
      id, whatever slashes the id contains, and a public key. */
  lemma ParserUndoesPrinter(name: string, inviteId: string, author: string)
    ensures ParseRevocationName(name) == Some((inviteId, author)) <==>
            name == RevocationName(inviteId, author) && |inviteId| > 0 && IsPublicKey(author)
  {
    if name == RevocationName(inviteId, author) && |inviteId| > 0 && IsPublicKey(author) {
      var rest := inviteId + "/" + author;
      assert name == REVOKED_PREFIX + rest;
      assert name[|REVOKED_PREFIX|..] == rest;
      forall k | |inviteId| < k < |rest| ensures rest[k] != '/' {
        assert rest[k] == author[k - |inviteId| - 1];
      }
      assert rest[|inviteId|] == '/';
      assert LastIndexOf(rest, '/') == |inviteId|;
      assert rest[..|inviteId|] == inviteId && rest[|inviteId| + 1..] == author;
    }
    if ParseRevocationName(name) == Some((inviteId, author)) {
      var rest := name[|REVOKED_PREFIX|..];
      assert name == REVOKED_PREFIX + rest;
      assert rest == inviteId + "/" + author;
      assert name == RevocationName(inviteId, author);
    }
  }

  /** A record of the namespace is admissible when its name binds it to its author
      and its value is the revocation that the name announces. */
  predicate IsValidRevocation(r: Record) {
    var parts := ParseRevocationName(r.name);
    parts.Some? && parts.value.1 == r.author && r.value == Revocation(parts.value.0)
  }

  lemma SlotBelongsToAuthor(r: Record)
    ensures IsValidRevocation(r) <==>
            && r.value.Revocation? && |r.value.inviteId| > 0 && IsPublicKey(r.author)
            && r.name == RevocationName(r.value.inviteId, r.author)
  {
    if r.value.Revocation? {
      ParserUndoesPrinter(r.name, r.value.inviteId, r.author);
    }
  }

  // ------------------------------------------------------------------- merge

  predicate IsExpired(r: Record, now: int) {
    r.updatedAt + r.ttl <= now
  }

  function PickNewer(a: Record, b: Record): Record {
    if a.version != b.version then (if a.version > b.version then a else b)
    else if a.updatedAt != b.updatedAt then (if a.updatedAt > b.updatedAt then a else b)
    else if !StrLess(a.signature, b.signature) then a else b
  }

  /** What a replica of `network` may store at all. `signed` is the outcome of the
      signature check. */
  predicate Admissible(network: string, signed: Record -> bool, r: Record) {
    && r.network == network && signed(r)
    && (StartsWith(r.name, REVOKED_PREFIX) ==> IsValidRevocation(r))
  }

  /** The record stored under a name after `r` is offered for it. */
  predicate Replaces(r: Record, current: Option<Record>, now: int) {
    || current.None? || IsExpired(current.value, now)
    || (PickNewer(r, current.value) == r && r.signature != current.value.signature)
  }

  function At(recs: Records, name: string): Option<Record> {
    if name in recs then Some(recs[name]) else None
  }

  function Merged(network: string, signed: Record -> bool, recs: Records, r: Record, now: int): (Records, bool) {
    if !IsExpired(r, now) && Admissible(network, signed, r) && Replaces(r, At(recs, r.name), now)
    then (recs[r.name := r], true) else (recs, false)
  }

  function Resolved(recs: Records, name: string, now: int): (Records, Option<Record>) {
    if name !in recs then (recs, None)
    else if IsExpired(recs[name], now) then (recs - {recs[name].name}, None)
    else (recs, Some(recs[name]))
  }

  function Purged(recs: Records, now: int): Records {
    map n | n in recs && !IsExpired(recs[n], now) :: recs[n]
  }

  function Loaded(recs: Records, batch: seq<Record>): Records
    decreases |batch|
  {
    if |batch| == 0 then recs else
      var before := Loaded(recs, batch[..|batch| - 1]);
      var r := batch[|batch| - 1];
      before[r.name := if r.name in before then PickNewer(r, before[r.name]) else r]
  }

  // --------------------------------------------------------------- the order

  /** The order behind `PickNewer`. */
  predicate Older(a: Record, b: Record) {
    || a.version < b.version
    || (a.version == b.version && a.updatedAt < b.updatedAt)
    || (a.version == b.version && a.updatedAt == b.updatedAt && StrLess(a.signature, b.signature))
  }

  lemma OlderIsOrder(a: Record, b: Record, c: Record)
    ensures !(Older(a, b) && Older(b, a))
    ensures Older(a, b) && Older(b, c) ==> Older(a, c)
    ensures a.signature != b.signature ==> Older(a, b) || Older(b, a)
    ensures a.signature != b.signature ==> (PickNewer(a, b) == a <==> Older(b, a))
  {
    StrLessTrichotomy(a.signature, b.signature);
    StrLessTrichotomy(b.signature, c.signature);
    if StrLess(a.signature, b.signature) && StrLess(b.signature, c.signature) {
      StrLessTransitive(a.signature, b.signature, c.signature);
    }
  }

  /** A signature covers the whole record, so it identifies the record. */
  ghost predicate Covers(signed: Record -> bool) {
    forall a, b :: signed(a) && signed(b) && a.signature == b.signature ==> a == b
  }

  /** An offer that does not meet expired records wins exactly when it is admissible
      and strictly newer than what is stored. */
  lemma MergeIsStrictRise(network: string, signed: Record -> bool, recs: Records, r: Record, now: int)
    requires Covers(signed) && !IsExpired(r, now)
    requires r.name in recs ==> signed(recs[r.name]) && !IsExpired(recs[r.name], now)
    ensures Merged(network, signed, recs, r, now).1 <==>
            Admissible(network, signed, r) && (r.name in recs ==> Older(recs[r.name], r))
  {
    if r.name in recs {
      OlderIsOrder(r, recs[r.name], r);
      StrLessTrichotomy(r.signature, r.signature);
    }
  }

  // -------------------------------------------------------- non-interference

  datatype Op = Merge(r: Record, now: int) | Resolve(name: string, now: int) | All(now: int)

  function Step(network: string, signed: Record -> bool, recs: Records, op: Op): Records {
    match op
    case Merge(r, now) => Merged(network, signed, recs, r, now).0
    case Resolve(name, now) => Resolved(recs, name, now).0
    case All(now) => Purged(recs, now)
  }

  function After(network: string, signed: Record -> bool, ops: seq<Op>): Records {
    if |ops| == 0 then map[] else Step(network, signed, After(network, signed, ops[..|ops| - 1]), ops[|ops| - 1])
  }

  ghost predicate InTimeOrder(ops: seq<Op>, end: int) {
    && (forall i, j :: 0 <= i < j < |ops| ==> ops[i].now <= ops[j].now)
    && (forall i :: 0 <= i < |ops| ==> ops[i].now <= end)
  }

  function OnlyBy(author: string): Op -> bool {
    (op: Op) => op.Merge? && op.r.author == author
  }

  function Unexpired(recs: Records, name: string, now: int): Option<Record> {
    if name in recs && !IsExpired(recs[name], now) then Some(recs[name]) else None
  }

  /** Records are filed under their own name, and the reserved namespace holds only
      revocations bound to their authors. */
  ghost predicate Filed(recs: Records) {
    forall n :: n in recs ==> recs[n].name == n && (StartsWith(n, REVOKED_PREFIX) ==> IsValidRevocation(recs[n]))
  }

  lemma {:induction false} AfterIsFiled(network: string, signed: Record -> bool, ops: seq<Op>)
    ensures Filed(After(network, signed, ops))
  {
    hide IsValidRevocation, StartsWith;
    if |ops| > 0 {
      AfterIsFiled(network, signed, ops[..|ops| - 1]);
    }
  }

  lemma OnlyItsAuthorFillsASlot(r: Record, inviteId: string, author: string)
    requires r.name == RevocationName(inviteId, author) && IsPublicKey(author) && IsValidRevocation(r)
    ensures r.author == author
  {
    SlotBelongsToAuthor(r);
    var name := r.name;
    assert name == (REVOKED_PREFIX + inviteId + "/") + author;
    assert name[|name| - PUBLIC_KEY_LENGTH..] == author;
    assert name == (REVOKED_PREFIX + r.value.inviteId + "/") + r.author;
    assert name[|name| - PUBLIC_KEY_LENGTH..] == r.author;
  }

  /** A merge acts on what is unexpired in a slot, and on nothing else. */
  lemma SameStepOnSlot(network: string, signed: Record -> bool, a: Records, b: Records, op: Op, name: string, t: int)
    requires op.Merge? && op.now <= t
    requires Unexpired(a, name, op.now) == Unexpired(b, name, op.now) && Unexpired(a, name, t) == Unexpired(b, name, t)
    ensures Unexpired(Step(network, signed, a, op), name, t) == Unexpired(Step(network, signed, b, op), name, t)
  {
    hide Admissible;
  }

  lemma OthersLeaveTheSlot(network: string, signed: Record -> bool, recs: Records, op: Op,
                           inviteId: string, author: string, t: int)
    requires Filed(recs) && IsPublicKey(author) && !OnlyBy(author)(op) && op.now <= t
    ensures var slot := RevocationName(inviteId, author);
            Unexpired(Step(network, signed, recs, op), slot, t) == Unexpired(recs, slot, t)
  {
    var slot := RevocationName(inviteId, author);
    if op.Merge? && op.r.name == slot && Admissible(network, signed, op.r) {
      assert slot[..|REVOKED_PREFIX|] == REVOKED_PREFIX;
      OnlyItsAuthorFillsASlot(op.r, inviteId, author);
    }
    hide Admissible, RevocationName, IsValidRevocation, IsPublicKey;
  }

  /** Non-interference: what is unexpired in an author's slot is decided by that
      author's own records alone, whatever else is merged, resolved or listed. */
  lemma {:induction false} SlotIgnoresOthers(network: string, signed: Record -> bool, ops: seq<Op>,
                                             inviteId: string, author: string, t: int)
    requires InTimeOrder(ops, t) && IsPublicKey(author)
    ensures Unexpired(After(network, signed, ops), RevocationName(inviteId, author), t)
            == Unexpired(After(network, signed, Filter(ops, OnlyBy(author))), RevocationName(inviteId, author), t)
    decreases |ops|
  {
    if |ops| > 0 {
      var rest, op := ops[..|ops| - 1], ops[|ops| - 1];
      assert ops == rest + [op];
      FilterAppend(rest, op, OnlyBy(author));
      hide Filter, RevocationName, IsPublicKey, Unexpired, Step, After, OnlyBy;
      SlotIgnoresOthers(network, signed, rest, inviteId, author, t);
      SlotIgnoresOthers(network, signed, rest, inviteId, author, op.now);
      AfterIsFiled(network, signed, rest);
      SlotStep(network, signed, rest, Filter(rest, OnlyBy(author)), op, inviteId, author, t);
    }
  }

  lemma SlotStep(network: string, signed: Record -> bool, rest: seq<Op>, own: seq<Op>, op: Op,
                 inviteId: string, author: string, t: int)
    requires var a, b := After(network, signed, rest), After(network, signed, own);
             var slot := RevocationName(inviteId, author);
             && Filed(a) && IsPublicKey(author) && op.now <= t
             && Unexpired(a, slot, op.now) == Unexpired(b, slot, op.now)
             && Unexpired(a, slot, t) == Unexpired(b, slot, t)
    ensures Unexpired(After(network, signed, rest + [op]), RevocationName(inviteId, author), t)
            == Unexpired(After(network, signed, own + if OnlyBy(author)(op) then [op] else []),
                         RevocationName(inviteId, author), t)
  {
    assert (rest + [op])[..|rest|] == rest && (own + [op])[..|own|] == own && own + [] == own;
    var a, b := After(network, signed, rest), After(network, signed, own);
    if OnlyBy(author)(op) {
      SameStepOnSlot(network, signed, a, b, op, RevocationName(inviteId, author), t);
    } else {
      OthersLeaveTheSlot(network, signed, a, op, inviteId, author, t);
    }
    hide RevocationName, IsPublicKey, Unexpired, Step, Filed;
  }

  // ------------------------------------------------------------- enforcement

  /** The revocation map built from a listing. */
  function RevocationsOf(found: seq<Record>): Identity.Revocations {
    if |found| == 0 then map[] else
      var m, r := RevocationsOf(found[..|found| - 1]), found[|found| - 1];
      if !StartsWith(r.name, REVOKED_PREFIX) || !IsValidRevocation(r) then m
      else AddRevoker(m, r.value.inviteId, r.author)
  }

  function AddRevoker(m: Identity.Revocations, inviteId: string, author: string): Identity.Revocations {
    m[inviteId := (if inviteId in m then m[inviteId] else {}) + {author}]
  }

  predicate Revokes(m: Identity.Revocations, inviteId: string, author: string) {
    inviteId in m && author in m[inviteId]
  }

  predicate IsRevocationBy(r: Record, inviteId: string, author: string) {
    IsValidRevocation(r) && r.value == Revocation(inviteId) && r.author == author
  }

  lemma {:induction false} RevocationsListed(found: seq<Record>, inviteId: string, author: string)
    ensures Revokes(RevocationsOf(found), inviteId, author) <==>
            exists r :: r in found && IsRevocationBy(r, inviteId, author)
  {
    if |found| > 0 {
      var rest, last := found[..|found| - 1], found[|found| - 1];
      assert found == rest + [last];
      RevocationsListed(rest, inviteId, author);
      if IsValidRevocation(last) {
        ValidIsReserved(last);
      }
      hide StartsWith, IsValidRevocation;
      if IsRevocationBy(last, inviteId, author) {
        assert last in found;
      }
    }
  }

  lemma ValidIsReserved(r: Record)
    requires IsValidRevocation(r)
    ensures StartsWith(r.name, REVOKED_PREFIX) && r.value.Revocation?
  {
  }

  /** `found` lists exactly the unexpired records. */
  ghost predicate Lists(found: seq<Record>, recs: Records, now: int) {
    forall r :: r in found <==> Unexpired(recs, r.name, now) == Some(r)
  }

  /** The revocation map says exactly whose slots hold something unexpired. */
  lemma RevocationsExact(recs: Records, found: seq<Record>, now: int, inviteId: string, author: string)
    requires Filed(recs) && Lists(found, recs, now) && |inviteId| > 0 && IsPublicKey(author)
    ensures Revokes(RevocationsOf(found), inviteId, author) <==>
            Unexpired(recs, RevocationName(inviteId, author), now).Some?
  {
    var slot := RevocationName(inviteId, author);
    RevocationsListed(found, inviteId, author);
    if Unexpired(recs, slot, now).Some? {
      var r := recs[slot];
      assert slot[..|REVOKED_PREFIX|] == REVOKED_PREFIX;
      ParserUndoesPrinter(slot, inviteId, author);
      assert r in found;
    }
    if Revokes(RevocationsOf(found), inviteId, author) {
      var r :| r in found && IsRevocationBy(r, inviteId, author);
      SlotBelongsToAuthor(r);
    }
  }

  /** As long as an issuer's or the genesis key's own records leave its revocation
      unexpired, no other traffic on the name service lets a chain with that
      certificate pass, for anyone but the genesis node. */
  lemma RevocationIsEnforced(network: string, signed: Record -> bool, ops: seq<Op>, t: int, found: seq<Record>,
                             c: Identity.Crypto, chain: seq<Identity.Certificate>, i: nat, author: string,
                             subject: string, now: int, ignoreExpiry: bool)
    requires InTimeOrder(ops, t) && Lists(found, After(network, signed, ops), t)
    requires i < |chain| && (author == chain[i].issuer || author == chain[0].issuer)
    requires IsPublicKey(author) && |chain[i].inviteId| > 0 && c.networkOf(subject) != network
    requires Unexpired(After(network, signed, Filter(ops, OnlyBy(author))),
                       RevocationName(chain[i].inviteId, author), t).Some?
    ensures !Identity.Authorizes(c, network, chain, subject, now, RevocationsOf(found), ignoreExpiry)
  {
    hide *;
    SlotIgnoresOthers(network, signed, ops, chain[i].inviteId, author, t);
    AfterIsFiled(network, signed, ops);
    RevocationsExact(After(network, signed, ops), found, t, chain[i].inviteId, author);
    RevokesMeans(RevocationsOf(found), chain[i].inviteId, author);
    Identity.RevocationDefeatsChains(c, network, chain, subject, now, RevocationsOf(found), ignoreExpiry, i, author);
  }

  lemma RevokesMeans(m: Identity.Revocations, inviteId: string, author: string)
    requires Revokes(m, inviteId, author)
    ensures inviteId in m && author in m[inviteId]
  {
  }

  // ------------------------------------------------------------- persistence

  /** Loading a saved listing into an empty replica restores it. */
  lemma {:induction false} LoadRestores(recs: Records, saved: seq<Record>)
    requires forall r :: r in saved ==> r.name in recs && recs[r.name] == r
    ensures Loaded(map[], saved) == map n | n in recs && recs[n] in saved && recs[n].name == n :: recs[n]
  {
    if |saved| > 0 {
      var rest, last := saved[..|saved| - 1], saved[|saved| - 1];
      assert saved == rest + [last];
      LoadRestores(recs, rest);
    }
  }
}
