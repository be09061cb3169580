/** Invite chains: who may join a network, and with which rights. */
module Identity {

  const MAX_CHAIN_LENGTH: nat := 16
  const ALL_RIGHTS: seq<string> := ["join", "invite", "chat", "store", "admin"]

  datatype Certificate = Certificate(kind: string, network: string, inviteId: string, issuer: string, subject: string,
                                     rights: seq<string>, issuedAt: int, expiresAt: int, revoked: bool,
                                     signature: string)

  type Revocations = map<string, set<string>>

  /** The cryptography: which network a genesis key names, and which certificates
      carry a good signature of their issuer. */
  datatype Crypto = Crypto(networkOf: string -> string, signed: Certificate -> bool)

  datatype Reason =
    | EmptyChain
    | ChainTooLong
    | NotRooted
    | WrongNetwork(link: nat)
    | InvalidLink(link: nat)
    | RevokedLink(link: nat)
    | BrokenChain(link: nat)
    | LacksInvite(link: nat)
    | ExceedsRights(link: nat)
    | WrongSubject
    | LacksJoin

  datatype Verdict = Accepted(rights: seq<string>) | Rejected(reason: Reason)

  predicate VerifyCertificate(c: Crypto, cert: Certificate, now: int) {
    cert.kind == "INVITE" && !cert.revoked && cert.expiresAt > now && c.signed(cert)
  }

  /** A revocation counts when its author has authority over the certificate. */
  predicate IsCertRevoked(cert: Certificate, genesis: string, revoked: Revocations) {
    && cert.inviteId in revoked
    && (cert.issuer in revoked[cert.inviteId] || genesis in revoked[cert.inviteId])
  }

  predicate Within(few: seq<string>, many: seq<string>) {
    forall r :: r in few ==> r in many
  }

  /** What is wrong with link `i`, if anything. */
  function LinkFault(c: Crypto, network: string, chain: seq<Certificate>, i: nat, now: int,
                     revoked: Revocations, ignoreExpiry: bool): (r: seq<Reason>)
    requires i < |chain|
    ensures |r| <= 1
  {
    var cert := chain[i];
    if cert.network != network then [WrongNetwork(i)]
    else if !VerifyCertificate(c, cert, if ignoreExpiry then cert.issuedAt + 1 else now) then [InvalidLink(i)]
    else if IsCertRevoked(cert, chain[0].issuer, revoked) then [RevokedLink(i)]
    else if i > 0 && cert.issuer != chain[i - 1].subject then [BrokenChain(i)]
    else if i > 0 && "invite" !in chain[i - 1].rights then [LacksInvite(i - 1)]
    else if i > 0 && !Within(cert.rights, chain[i - 1].rights) then [ExceedsRights(i)]
    else []
  }

  /** The walk from link `i` on. */
  function Walk(c: Crypto, network: string, chain: seq<Certificate>, i: nat, subject: string, now: int,
                revoked: Revocations, ignoreExpiry: bool): Verdict
    requires 0 < |chain| && i <= |chain|
    decreases |chain| - i
  {
    if i == |chain| then
      var last := chain[|chain| - 1];
      if last.subject != subject then Rejected(WrongSubject)
      else if "join" !in last.rights then Rejected(LacksJoin)
      else Accepted(last.rights)
    else
      var fault := LinkFault(c, network, chain, i, now, revoked, ignoreExpiry);
      if |fault| > 0 then Rejected(fault[0]) else Walk(c, network, chain, i + 1, subject, now, revoked, ignoreExpiry)
  }

  /** No revocations given is the same as an empty map of them. */
  function VerifyInviteChain(c: Crypto, network: string, chain: seq<Certificate>, subject: string, now: int,
                             revoked: Revocations, ignoreExpiry: bool): Verdict
  {
    if c.networkOf(subject) == network then Accepted(ALL_RIGHTS)
    else if |chain| == 0 then Rejected(EmptyChain)
    else if |chain| > MAX_CHAIN_LENGTH then Rejected(ChainTooLong)
    else if c.networkOf(chain[0].issuer) != network then Rejected(NotRooted)
    else Walk(c, network, chain, 0, subject, now, revoked, ignoreExpiry)
  }

  predicate Authorizes(c: Crypto, network: string, chain: seq<Certificate>, subject: string, now: int,
                       revoked: Revocations, ignoreExpiry: bool)
  {
    VerifyInviteChain(c, network, chain, subject, now, revoked, ignoreExpiry).Accepted?
  }

  // --------------------------------------------------------- what is accepted

  predicate Sound(c: Crypto, network: string, cert: Certificate, genesis: string, now: int,
                  revoked: Revocations, ignoreExpiry: bool)
  {
    && cert.network == network && cert.kind == "INVITE" && !cert.revoked && c.signed(cert)
    && (if ignoreExpiry then cert.issuedAt + 1 < cert.expiresAt else now < cert.expiresAt)
    && (cert.inviteId in revoked ==> cert.issuer !in revoked[cert.inviteId] && genesis !in revoked[cert.inviteId])
  }

  /** The holder of `from` issued `to`, and passed on no more than it had. */
  predicate Delegates(from: Certificate, to: Certificate) {
    from.subject == to.issuer && "invite" in from.rights && forall r :: r in to.rights ==> r in from.rights
  }

  ghost predicate Connected(chain: seq<Certificate>) {
    forall i, j :: 0 <= i && j == i + 1 < |chain| ==> Delegates(chain[i], chain[j])
  }

  /** The design's rules for a chain, without the order in which they are checked. */
  ghost predicate GoodChain(c: Crypto, network: string, chain: seq<Certificate>, subject: string, now: int,
                            revoked: Revocations, ignoreExpiry: bool)
  {
    && 0 < |chain| <= MAX_CHAIN_LENGTH && c.networkOf(chain[0].issuer) == network
    && (forall i :: 0 <= i < |chain| ==> Sound(c, network, chain[i], chain[0].issuer, now, revoked, ignoreExpiry))
    && Connected(chain)
    && chain[|chain| - 1].subject == subject && "join" in chain[|chain| - 1].rights
  }

  lemma {:induction false} WalkAccepts(c: Crypto, network: string, chain: seq<Certificate>, i: nat, subject: string,
                                       now: int, revoked: Revocations, ignoreExpiry: bool)
    requires 0 < |chain| && i <= |chain|
    ensures var v := Walk(c, network, chain, i, subject, now, revoked, ignoreExpiry);
            && (v.Accepted? <==>
                && (forall k :: i <= k < |chain| ==> |LinkFault(c, network, chain, k, now, revoked, ignoreExpiry)| == 0)
                && chain[|chain| - 1].subject == subject && "join" in chain[|chain| - 1].rights)
            && (v.Accepted? ==> v.rights == chain[|chain| - 1].rights)
    decreases |chain| - i
  {
    hide LinkFault;
    if i < |chain| {
      WalkAccepts(c, network, chain, i + 1, subject, now, revoked, ignoreExpiry);
    }
  }

  lemma FaultlessLink(c: Crypto, network: string, chain: seq<Certificate>, k: nat, now: int,
                      revoked: Revocations, ignoreExpiry: bool)
    requires k < |chain|
    ensures |LinkFault(c, network, chain, k, now, revoked, ignoreExpiry)| == 0 <==>
            && Sound(c, network, chain[k], chain[0].issuer, now, revoked, ignoreExpiry)
            && (k > 0 ==> Delegates(chain[k - 1], chain[k]))
  {
  }

  lemma FaultlessLinks(c: Crypto, network: string, chain: seq<Certificate>, now: int,
                       revoked: Revocations, ignoreExpiry: bool)
    requires |chain| > 0
    ensures (forall k :: 0 <= k < |chain| ==> |LinkFault(c, network, chain, k, now, revoked, ignoreExpiry)| == 0) <==>
            && (forall i :: 0 <= i < |chain| ==>
              Sound(c, network, chain[i], chain[0].issuer, now, revoked, ignoreExpiry))
            && Connected(chain)
  {
    if forall k :: 0 <= k < |chain| ==> |LinkFault(c, network, chain, k, now, revoked, ignoreExpiry)| == 0 {
      forall k | 0 <= k < |chain|
        ensures Sound(c, network, chain[k], chain[0].issuer, now, revoked, ignoreExpiry)
        ensures k > 0 ==> Delegates(chain[k - 1], chain[k])
      {
        FaultlessLink(c, network, chain, k, now, revoked, ignoreExpiry);
      }
    }
    forall k | && 0 <= k < |chain| && Sound(c, network, chain[k], chain[0].issuer, now, revoked, ignoreExpiry)
               && Connected(chain)
      ensures |LinkFault(c, network, chain, k, now, revoked, ignoreExpiry)| == 0
    {
      FaultlessLink(c, network, chain, k, now, revoked, ignoreExpiry);
    }
    hide LinkFault, Sound, Delegates;
  }

  /** The walk with its early returns accepts exactly the chains that obey every
      rule, and grants exactly the last link's rights. */
  lemma AcceptedIffGood(c: Crypto, network: string, chain: seq<Certificate>, subject: string, now: int,
                        revoked: Revocations, ignoreExpiry: bool)
    requires c.networkOf(subject) != network
    ensures Authorizes(c, network, chain, subject, now, revoked, ignoreExpiry) <==>
            GoodChain(c, network, chain, subject, now, revoked, ignoreExpiry)
    ensures GoodChain(c, network, chain, subject, now, revoked, ignoreExpiry) ==>
              VerifyInviteChain(c, network, chain, subject, now, revoked, ignoreExpiry)
              == Accepted(chain[|chain| - 1].rights)
  {
    hide LinkFault, Sound, Delegates, Walk;
    if |chain| > 0 {
      WalkAccepts(c, network, chain, 0, subject, now, revoked, ignoreExpiry);
      FaultlessLinks(c, network, chain, now, revoked, ignoreExpiry);
    }
  }

  // ------------------------------------------------------------- attenuation

  lemma {:induction false} RightsShrink(chain: seq<Certificate>, i: nat, j: nat)
    requires i <= j < |chain|
    requires Connected(chain)
    ensures Within(chain[j].rights, chain[i].rights)
  {
    if i < j {
      RightsShrink(chain, i, j - 1);
      assert Delegates(chain[j - 1], chain[j]);
    }
  }

  /** Delegation attenuates: an accepted chain starts at the genesis key, every
      link but the last may invite, and the granted rights are held by every link. */
  lemma DelegationAttenuates(c: Crypto, network: string, chain: seq<Certificate>, subject: string, now: int,
                             revoked: Revocations, ignoreExpiry: bool, i: nat)
    requires c.networkOf(subject) != network && i < |chain|
    requires Authorizes(c, network, chain, subject, now, revoked, ignoreExpiry)
    ensures c.networkOf(chain[0].issuer) == network
    ensures i < |chain| - 1 ==> "invite" in chain[i].rights
    ensures Within(VerifyInviteChain(c, network, chain, subject, now, revoked, ignoreExpiry).rights, chain[i].rights)
  {
    hide VerifyInviteChain, Authorizes, Sound, Within;
    AcceptedIffGood(c, network, chain, subject, now, revoked, ignoreExpiry);
    RightsShrink(chain, i, |chain| - 1);
    if i < |chain| - 1 {
      assert Delegates(chain[i], chain[i + 1]);
    }
  }

  /** Whoever appears in an accepted chain can prove membership with the part of
      the chain that leads to them. */
  lemma PrefixesAreAccepted(c: Crypto, network: string, chain: seq<Certificate>, subject: string, now: int,
                            revoked: Revocations, ignoreExpiry: bool, n: nat)
    requires c.networkOf(subject) != network && 0 < n <= |chain|
    requires Authorizes(c, network, chain, subject, now, revoked, ignoreExpiry)
    ensures Authorizes(c, network, chain[..n], chain[n - 1].subject, now, revoked, ignoreExpiry)
  {
    AcceptedIffGood(c, network, chain, subject, now, revoked, ignoreExpiry);
    RightsShrink(chain, n - 1, |chain| - 1);
    var holder := chain[n - 1].subject;
    if c.networkOf(holder) != network {
      AcceptedIffGood(c, network, chain[..n], holder, now, revoked, ignoreExpiry);
      hide Authorizes, Sound, Delegates, VerifyInviteChain;
      assert GoodChain(c, network, chain[..n], holder, now, revoked, ignoreExpiry);
    }
  }

  ghost predicate FewerRevocations(few: Revocations, many: Revocations) {
    forall id :: id in few ==> id in many && few[id] <= many[id]
  }

  /** Authority is never gained by waiting or by a revocation, and what remains
      accepted grants the same rights. */
  lemma AuthorityOnlyShrinks(c: Crypto, network: string, chain: seq<Certificate>, subject: string, ignoreExpiry: bool,
                             now: int, revoked: Revocations, later: int, more: Revocations)
    requires now <= later && FewerRevocations(revoked, more)
    requires Authorizes(c, network, chain, subject, later, more, ignoreExpiry)
    ensures VerifyInviteChain(c, network, chain, subject, now, revoked, ignoreExpiry)
            == VerifyInviteChain(c, network, chain, subject, later, more, ignoreExpiry)
  {
    if c.networkOf(subject) != network {
      AcceptedIffGood(c, network, chain, subject, later, more, ignoreExpiry);
      AcceptedIffGood(c, network, chain, subject, now, revoked, ignoreExpiry);
      hide Authorizes, VerifyInviteChain, Delegates;
      forall i | 0 <= i < |chain| ensures Sound(c, network, chain[i], chain[0].issuer, now, revoked, ignoreExpiry) {
        assert Sound(c, network, chain[i], chain[0].issuer, later, more, ignoreExpiry);
      }
    }
  }

  /** Ignoring expiry, as historical entries are checked, still accepts a chain
      that is good today exactly when every link was issued for longer than a second. */
  lemma HistoryKeepsMembers(c: Crypto, network: string, chain: seq<Certificate>, subject: string, now: int,
                            revoked: Revocations)
    requires c.networkOf(subject) != network && Authorizes(c, network, chain, subject, now, revoked, false)
    ensures Authorizes(c, network, chain, subject, now, revoked, true) <==>
            forall i :: 0 <= i < |chain| ==> chain[i].issuedAt + 1 < chain[i].expiresAt
  {
    AcceptedIffGood(c, network, chain, subject, now, revoked, false);
    AcceptedIffGood(c, network, chain, subject, now, revoked, true);
    hide Authorizes, VerifyInviteChain, Delegates, IsCertRevoked;
    if forall i :: 0 <= i < |chain| ==> chain[i].issuedAt + 1 < chain[i].expiresAt {
      forall i | 0 <= i < |chain| ensures Sound(c, network, chain[i], chain[0].issuer, now, revoked, true) {
        assert Sound(c, network, chain[i], chain[0].issuer, now, revoked, false);
      }
    }
    if GoodChain(c, network, chain, subject, now, revoked, true) {
      forall i | 0 <= i < |chain| ensures chain[i].issuedAt + 1 < chain[i].expiresAt {
        assert Sound(c, network, chain[i], chain[0].issuer, now, revoked, true);
      }
    }
  }

  /** A revocation by its issuer or by the genesis key defeats every chain that
      contains the certificate, for anyone but the genesis node itself. */
  lemma RevocationDefeatsChains(c: Crypto, network: string, chain: seq<Certificate>, subject: string, now: int,
                                revoked: Revocations, ignoreExpiry: bool, i: nat, author: string)
    requires c.networkOf(subject) != network && i < |chain|
    requires author == chain[i].issuer || author == chain[0].issuer
    requires chain[i].inviteId in revoked && author in revoked[chain[i].inviteId]
    ensures !Authorizes(c, network, chain, subject, now, revoked, ignoreExpiry)
  {
    AcceptedIffGood(c, network, chain, subject, now, revoked, ignoreExpiry);
    hide Authorizes, VerifyInviteChain, Delegates;
    assert !Sound(c, network, chain[i], chain[0].issuer, now, revoked, ignoreExpiry);
  }

  /** Revocations by anybody else change no verdict: it depends only on what the issuers
      and the genesis key revoked. */
  lemma OnlyAuthoritiesRevoke(c: Crypto, network: string, chain: seq<Certificate>, subject: string, now: int,
                              some: Revocations, others: Revocations, ignoreExpiry: bool)
    requires forall i, author :: 0 <= i < |chain| && (author == chain[i].issuer || author == chain[0].issuer) ==>
               (chain[i].inviteId in some && author in some[chain[i].inviteId]
                <==> chain[i].inviteId in others && author in others[chain[i].inviteId])
    ensures VerifyInviteChain(c, network, chain, subject, now, some, ignoreExpiry)
            == VerifyInviteChain(c, network, chain, subject, now, others, ignoreExpiry)
  {
    if |chain| > 0 {
      SameWalk(c, network, chain, 0, subject, now, some, others, ignoreExpiry);
    }
    hide Walk;
  }

  lemma {:induction false} SameWalk(c: Crypto, network: string, chain: seq<Certificate>, i: nat, subject: string,
                                    now: int, some: Revocations, others: Revocations, ignoreExpiry: bool)
    requires 0 < |chain| && i <= |chain|
    requires forall i, author :: 0 <= i < |chain| && (author == chain[i].issuer || author == chain[0].issuer) ==>
               (chain[i].inviteId in some && author in some[chain[i].inviteId]
                <==> chain[i].inviteId in others && author in others[chain[i].inviteId])
    ensures Walk(c, network, chain, i, subject, now, some, ignoreExpiry)
            == Walk(c, network, chain, i, subject, now, others, ignoreExpiry)
    decreases |chain| - i
  {
    if i < |chain| {
      SameWalk(c, network, chain, i + 1, subject, now, some, others, ignoreExpiry);
      assert IsCertRevoked(chain[i], chain[0].issuer, some) == IsCertRevoked(chain[i], chain[0].issuer, others);
    }
  }

  /** The genesis node needs no chain, and has every right. */
  lemma GenesisNeedsNoChain(c: Crypto, network: string, chain: seq<Certificate>, subject: string, now: int,
                            revoked: Revocations, ignoreExpiry: bool)
    requires c.networkOf(subject) == network
    ensures VerifyInviteChain(c, network, chain, subject, now, revoked, ignoreExpiry)
            == Accepted(["join", "invite", "chat", "store", "admin"])
  {
  }

  /** What a link was rejected for is what is wrong with it, and no earlier link has a
      fault. */
  ghost predicate Explains(c: Crypto, network: string, chain: seq<Certificate>, now: int, revoked: Revocations,
                           ignoreExpiry: bool, reason: Reason)
    requires |chain| > 0
  {
    match reason
    case WrongNetwork(i) => i < |chain| && chain[i].network != network
    case InvalidLink(i) =>
      && i < |chain|
      && var cert := chain[i];
         cert.kind != "INVITE" || cert.revoked || !c.signed(cert)
         || cert.expiresAt <= if ignoreExpiry then cert.issuedAt + 1 else now
    case RevokedLink(i) =>
      && i < |chain| && chain[i].inviteId in revoked
      && (chain[i].issuer in revoked[chain[i].inviteId] || chain[0].issuer in revoked[chain[i].inviteId])
    case BrokenChain(i) => 0 < i < |chain| && chain[i].issuer != chain[i - 1].subject
    case LacksInvite(i) => i + 1 < |chain| && "invite" !in chain[i].rights
    case ExceedsRights(i) => 0 < i < |chain| && exists r :: r in chain[i].rights && r !in chain[i - 1].rights
    case _ => true
  }

  lemma {:induction false} WalkExplains(c: Crypto, network: string, chain: seq<Certificate>, i: nat, subject: string,
                                        now: int, revoked: Revocations, ignoreExpiry: bool)
    requires 0 < |chain| && i <= |chain|
    ensures var v := Walk(c, network, chain, i, subject, now, revoked, ignoreExpiry);
            v.Rejected? ==>
              && Explains(c, network, chain, now, revoked, ignoreExpiry, v.reason)
              && (v.reason == WrongSubject ==> chain[|chain| - 1].subject != subject)
              && (v.reason == LacksJoin ==> "join" !in chain[|chain| - 1].rights)
              && v.reason !in {EmptyChain, ChainTooLong, NotRooted}
    decreases |chain| - i
  {
    if i < |chain| {
      FaultExplains(c, network, chain, i, now, revoked, ignoreExpiry);
      WalkExplains(c, network, chain, i + 1, subject, now, revoked, ignoreExpiry);
      hide LinkFault, Explains;
    }
  }

  lemma FaultExplains(c: Crypto, network: string, chain: seq<Certificate>, i: nat, now: int,
                      revoked: Revocations, ignoreExpiry: bool)
    requires i < |chain|
    ensures var fault := LinkFault(c, network, chain, i, now, revoked, ignoreExpiry);
            |fault| > 0 ==> Explains(c, network, chain, now, revoked, ignoreExpiry, fault[0])
                            && fault[0] !in {EmptyChain, ChainTooLong, NotRooted, WrongSubject, LacksJoin}
  {
  }

  /** A rejection gives a reason that holds. */
  lemma ReasonsHold(c: Crypto, network: string, chain: seq<Certificate>, subject: string, now: int,
                    revoked: Revocations, ignoreExpiry: bool)
    ensures var v := VerifyInviteChain(c, network, chain, subject, now, revoked, ignoreExpiry);
            v.Rejected? ==>
              && c.networkOf(subject) != network
              && (v.reason == EmptyChain <==> |chain| == 0) && (v.reason == ChainTooLong <==> |chain| > 16)
              && (v.reason == NotRooted ==> |chain| > 0 && c.networkOf(chain[0].issuer) != network)
              && (|chain| > 0 ==> Explains(c, network, chain, now, revoked, ignoreExpiry, v.reason))
              && (v.reason == WrongSubject ==> |chain| > 0 && chain[|chain| - 1].subject != subject)
              && (v.reason == LacksJoin ==> |chain| > 0 && "join" !in chain[|chain| - 1].rights)
  {
    if |chain| > 0 {
      WalkExplains(c, network, chain, 0, subject, now, revoked, ignoreExpiry);
    }
    hide Walk;
  }
}
