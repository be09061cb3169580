/** The name-service replica as the object it is: a map that `merge`, `resolve`,
    `all` and `load` update in place. */
module NameServer {
  import opened Basics
  import opened Ordering
  import opened JsMaps
  import opened NameService
  import Identity

  function Fresh(recs: Records, now: int): string -> bool {
    (n: string) => n in recs && !IsExpired(recs[n], now)
  }

  class NameServiceStore {
    const network: string
    /** The outcome of the signature check. */
    const signed: Record -> bool
    /** The locale's order on names. */
    const collates: (Record, Record) -> bool
    var records: JsMap<string, Record>

    ghost function View(): Records
      reads this
    {
      records.at
    }

    ghost predicate Valid()
      reads this
    {
      MapOk(records) && forall n :: n in records.at ==> records.at[n].name == n
    }

    constructor (network: string, signed: Record -> bool, collates: (Record, Record) -> bool)
      ensures Valid() && View() == map[]
      ensures this.network == network && this.signed == signed && this.collates == collates
    {
      this.network, this.signed, this.collates := network, signed, collates;
      records := EmptyMap();
    }

    method MergeRecord(r: Record, now: int) returns (won: bool)
      requires Valid()
      modifies `records
      ensures Valid() && (View(), won) == Merged(network, signed, old(View()), r, now)
    {
      hide IsValidRevocation;
      if r.network != network {
        return false;
      }
      if IsExpired(r, now) {
        return false;
      }
      if StartsWith(r.name, REVOKED_PREFIX) && !IsValidRevocation(r) {
        return false;
      }
      if !signed(r) {
        return false;
      }
      PutOk(records, r.name, r);
      if r.name !in records.at || IsExpired(records.at[r.name], now) {
        records := Put(records, r.name, r);
        return true;
      }
      var current := records.at[r.name];
      if PickNewer(r, current) == r && r.signature != current.signature {
        records := Put(records, r.name, r);
        return true;
      }
      return false;
    }

    method ResolveName(name: string, now: int) returns (found: Option<Record>)
      requires Valid()
      modifies `records
      ensures Valid() && (View(), found) == Resolved(old(View()), name, now)
    {
      if name !in records.at {
        return None;
      }
      var record := records.at[name];
      if IsExpired(record, now) {
        DeleteOk(records, record.name);
        records := Delete(records, record.name);
        return None;
      }
      return Some(record);
    }

    method PurgeExpired(now: int)
      requires Valid()
      modifies `records
      ensures Valid() && View() == Purged(old(View()), now)
    {
      ghost var before := records;
      var names := records.order;
      ghost var keep := Fresh(records.at, now);
      RetainOk(before, keep);
      assert Retain(before, keep).at == Purged(before.at, now);
      assert forall n :: n in before.at ==> keep(n) == !IsExpired(before.at[n], now);
      hide Delete, Retain, MapOk, IsExpired, Purged, Fresh;
      SoFarBegin(before, keep);
      for i := 0 to |names|
        invariant records == Retain(before, SoFar(names[..i], keep))
      {
        SoFarAdvance(before, i, keep);
        if IsExpired(records.at[names[i]], now) {
          records := Delete(records, names[i]);
        }
      }
      assert names[..|names|] == names;
      SoFarEnd(before, keep);
      RetainKeeps(before, keep);
    }

    /** Lists exactly the unexpired records, each once, in the locale's order. */
    method ListAll(now: int) returns (found: seq<Record>)
      requires Valid()
      modifies `records
      ensures Valid() && View() == Purged(old(View()), now)
      ensures Lists(found, old(View()), now) && Distinct(found)
      ensures StrictWeakOrder(collates) ==> Sorted(found, collates)
    {
      PurgeExpired(now);
      var values := Values(records);
      ValuesListed(records);
      found := Sort(values, collates);
      SortContents(values, collates);
      SortDistinct(values, collates);
      if StrictWeakOrder(collates) {
        SortSorted(values, collates);
      }
      hide Sort, Distinct, Sorted;
      forall r ensures r in found <==> Unexpired(old(View()), r.name, now) == Some(r) {
        assert r in found <==> r in values;
      }
    }

    method Load(batch: seq<Record>)
      requires Valid()
      modifies `records
      ensures Valid() && View() == Loaded(old(View()), batch)
    {
      for i := 0 to |batch|
        invariant Valid() && View() == Loaded(old(View()), batch[..i])
      {
        assert batch[..i + 1][..i] == batch[..i];
        var r := batch[i];
        var winner := if r.name in records.at then PickNewer(r, records.at[r.name]) else r;
        PutOk(records, r.name, winner);
        records := Put(records, r.name, winner);
      }
      assert batch[..|batch|] == batch;
    }

    /** The revocation map of the unexpired records. */
    method RevocationMap(now: int) returns (m: Identity.Revocations, ghost found: seq<Record>)
      requires Valid()
      modifies `records
      ensures Valid() && View() == Purged(old(View()), now)
      ensures Lists(found, old(View()), now) && m == RevocationsOf(found)
    {
      var listing := ListAll(now);
      found := listing;
      m := map[];
      for i := 0 to |listing|
        modifies {}
        invariant m == RevocationsOf(listing[..i])
      {
        assert listing[..i + 1][..i] == listing[..i];
        var r := listing[i];
        if !StartsWith(r.name, REVOKED_PREFIX) {
          continue;
        }
        if !IsValidRevocation(r) {
          continue;
        }
        m := m[r.value.inviteId := (if r.value.inviteId in m then m[r.value.inviteId] else {}) + {r.author}];
      }
      assert listing[..|listing|] == listing;
    }
  }

  lemma RetainKeeps(m: JsMap<string, Record>, keep: string -> bool)
    ensures forall n :: n in Retain(m, keep).at ==> n in m.at && Retain(m, keep).at[n] == m.at[n]
  {
  }

  lemma ValuesListed(m: JsMap<string, Record>)
    requires MapOk(m) && forall n :: n in m.at ==> m.at[n].name == n
    ensures Distinct(Values(m))
    ensures forall r :: r in Values(m) <==> r.name in m.at && m.at[r.name] == r
  {
    var values := Values(m);
    forall i, j | 0 <= i < j < |values| ensures values[i] != values[j] {
      assert values[i].name == m.order[i] && values[j].name == m.order[j];
    }
    forall r: Record | r.name in m.at && m.at[r.name] == r ensures r in values {
      var i :| 0 <= i < |m.order| && m.order[i] == r.name;
      assert values[i] == r;
    }
  }
}
