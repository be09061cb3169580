/** What each operation does to a replica of the name service, told by the fields of the
    records. */
module NameEffects {
  import opened Basics
  import opened Ordering
  import opened NameService

  /** Higher version, or later time, or greater signature, in this order. */
  predicate Beats(a: Record, b: Record) {
    || b.version < a.version
    || (b.version == a.version && b.updatedAt < a.updatedAt)
    || (b.version == a.version && b.updatedAt == a.updatedAt && StrLess(b.signature, a.signature))
  }

  /** A record that may be stored at all: of this network, signed, and in the namespace of
      revocations only under the name made of the invite it revokes and its author's key. */
  predicate MayEnter(network: string, signed: Record -> bool, r: Record) {
    && r.network == network && signed(r)
    && ("revoked/" <= r.name ==>
          && r.value.Revocation? && |r.value.inviteId| > 0
          && |r.author| == 130 && (forall c :: c in r.author ==> c in "0123456789abcdef")
          && r.name == "revoked/" + r.value.inviteId + "/" + r.author)
  }

  lemma MayEnterIfAdmissible(network: string, signed: Record -> bool, r: Record)
    ensures MayEnter(network, signed, r) <==> Admissible(network, signed, r)
  {
    SlotBelongsToAuthor(r);
    assert StartsWith(r.name, REVOKED_PREFIX) <==> "revoked/" <= r.name;
    KeyIsHex(r.author);
    if r.value.Revocation? {
      assert RevocationName(r.value.inviteId, r.author) == "revoked/" + r.value.inviteId + "/" + r.author;
    }
    hide IsValidRevocation, RevocationName, StartsWith;
  }

  lemma KeyIsHex(s: string)
    ensures IsPublicKey(s) <==> |s| == 130 && forall c :: c in s ==> c in "0123456789abcdef"
  {
    forall c ensures c in "0123456789abcdef" <==> '0' <= c <= '9' || 'a' <= c <= 'f' {
      HexLetter(c);
    }
    assert forall k :: 0 <= k < |s| ==> s[k] in s;
  }

  lemma NewerBeats(a: Record, b: Record)
    ensures a.signature != b.signature ==> (PickNewer(a, b) == a <==> Beats(a, b))
  {
    StrLessTrichotomy(a.signature, b.signature);
  }

  /** A record is taken exactly if it has not expired, may enter, and finds nothing under
      its name, or something expired, or something that it beats; it then stands under its
      name, and no other name is touched. */
  lemma MergeEffect(network: string, signed: Record -> bool, recs: Records, r: Record, now: int)
    ensures var (t, won) := Merged(network, signed, recs, r, now);
            && (won <==>
                && now < r.updatedAt + r.ttl && MayEnter(network, signed, r)
                && (r.name in recs ==>
                      var c := recs[r.name];
                      c.updatedAt + c.ttl <= now || (r.signature != c.signature && Beats(r, c))))
            && t == if won then recs[r.name := r] else recs
  {
    MayEnterIfAdmissible(network, signed, r);
    if r.name in recs {
      NewerBeats(r, recs[r.name]);
    }
    hide MayEnter, Admissible, Beats, PickNewer;
  }

  /** A name resolves to its record until that expires, which also removes it. */
  lemma ResolveEffect(recs: Records, name: string, now: int)
    requires name in recs ==> recs[name].name == name
    ensures Resolved(recs, name, now)
            == if name !in recs then (recs, None)
               else if now < recs[name].updatedAt + recs[name].ttl then (recs, Some(recs[name]))
               else (recs - {name}, None)
  {
  }

  /** A purge removes exactly the expired. */
  lemma PurgeEffect(recs: Records, now: int, name: string)
    ensures var t := Purged(recs, now);
            && (name in t <==> name in recs && now < recs[name].updatedAt + recs[name].ttl)
            && (name in t ==> t[name] == recs[name])
  {
  }

  /** Of what is loaded and what is stored, no record beats the one that is then held under
      their name, and that is one of them. */
  lemma {:induction false} LoadEffect(recs: Records, batch: seq<Record>, name: string)
    requires forall n :: n in recs ==> recs[n].name == n
    ensures var t := Loaded(recs, batch);
            && (name in t <==> name in recs || exists r :: r in batch && r.name == name)
            && (name in t ==>
                  && t[name].name == name && (t[name] in batch || (name in recs && t[name] == recs[name]))
                  && (name in recs ==> !Beats(recs[name], t[name]))
                  && forall r :: r in batch && r.name == name ==> !Beats(r, t[name]))
  {
    if |batch| == 0 {
      BeatsIsOrder();
    } else {
      var rest, last := batch[..|batch| - 1], batch[|batch| - 1];
      assert batch == rest + [last];
      assert forall r :: r in batch <==> r in rest || r == last;
      LoadEffect(recs, rest, name);
      BeatsIsOrder();
      if name == last.name && name in Loaded(recs, rest) {
        PickedIsUnbeaten(last, Loaded(recs, rest)[name]);
      }
      hide Beats, PickNewer;
    }
  }

  lemma PickedIsUnbeaten(a: Record, b: Record)
    ensures var p := PickNewer(a, b); (p == a || p == b) && !Beats(a, p) && !Beats(b, p)
  {
    StrLessTrichotomy(a.signature, b.signature);
    StrLessTrichotomy(a.signature, a.signature);
    StrLessTrichotomy(b.signature, b.signature);
  }

  lemma BeatsIsOrder()
    ensures forall a :: !Beats(a, a)
    ensures forall a, b, c :: !Beats(a, b) && !Beats(b, c) ==> !Beats(a, c)
  {
    forall a: Record ensures !Beats(a, a) {
      StrLessTrichotomy(a.signature, a.signature);
    }
    forall a: Record, b: Record, c: Record | !Beats(a, b) && !Beats(b, c) ensures !Beats(a, c) {
      StrLessTrichotomy(a.signature, b.signature);
      StrLessTrichotomy(b.signature, c.signature);
      if StrLess(a.signature, b.signature) && StrLess(b.signature, c.signature) {
        StrLessTransitive(a.signature, b.signature, c.signature);
      }
      StrLessTrichotomy(a.signature, c.signature);
    }
  }
}
