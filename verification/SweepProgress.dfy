/** How far a sweep in progress has come: deleting while iterating over a map
    reaches the swept store one key at a time. */
module SweepProgress {
  import opened Ordering
  import opened JsMaps
  import opened RelayStore

  predicate Kept(s: Store, done: seq<string>, n: string, now: int) {
    n in done ==> NetworkLives(s.networks, n, now)
  }

  function StillKept(s: Store, done: seq<string>, now: int): string -> bool {
    (n: string) => Kept(s, done, n, now)
  }

  /** The store once the networks `done` have been swept. */
  function Partly(s: Store, done: seq<string>, now: int): Store {
    Store(JsMap(map n | n in s.networks.at && Kept(s, done, n, now) ::
                  if n in done then LiveEvents(s.networks.at[n], now) else s.networks.at[n],
                Filter(s.networks.order, StillKept(s, done, now))),
          s.joins,
          map n | n in s.activity && Kept(s, done, n, now) :: s.activity[n])
  }

  lemma Begin(s: Store, now: int)
    ensures Partly(s, [], now) == s
  {
    FilterAll(s.networks.order, StillKept(s, [], now));
  }

  lemma NotYet(s: Store, nets: seq<string>, i: nat, now: int)
    requires MapOk(s.networks) && nets == s.networks.order && i < |nets|
    ensures nets[..i + 1] == nets[..i] + [nets[i]]
    ensures nets[i] !in nets[..i] && nets[i] in s.networks.at
    ensures nets[i] in Partly(s, nets[..i], now).networks.at
    ensures Partly(s, nets[..i], now).networks.at[nets[i]] == s.networks.at[nets[i]]
  {
  }

  lemma AdvanceDead(s: Store, done: seq<string>, net: string, more: seq<string>, now: int)
    requires more == done + [net] && net in s.networks.at && net !in done && |LiveEvents(s.networks.at[net], now)| == 0
    ensures var t := Partly(s, done, now);
            Partly(s, more, now) == t.(networks := Delete(t.networks, net), activity := t.activity - {net})
  {
    hide LiveEvents;
    assert forall n :: n in more <==> n in done || n == net;
    var t, u := Partly(s, done, now), Partly(s, more, now);
    FilterFilter(s.networks.order, StillKept(s, done, now), Except(net), StillKept(s, more, now));
    assert u.networks.at == t.networks.at - {net};
    assert u.activity == t.activity - {net};
  }

  lemma AdvanceLive(s: Store, done: seq<string>, net: string, more: seq<string>, now: int)
    requires more == done + [net] && net in s.networks.at && net !in done && |LiveEvents(s.networks.at[net], now)| > 0
    ensures var t := Partly(s, done, now);
            Partly(s, more, now) == t.(networks := Put(t.networks, net, LiveEvents(s.networks.at[net], now)))
  {
    hide LiveEvents;
    assert forall n :: n in more <==> n in done || n == net;
    var t, u := Partly(s, done, now), Partly(s, more, now);
    FilterSame(s.networks.order, StillKept(s, done, now), StillKept(s, more, now));
    assert u.networks.at == t.networks.at[net := LiveEvents(s.networks.at[net], now)];
    assert u.activity == t.activity;
  }

  lemma Finish(s: Store, now: int)
    requires MapOk(s.networks) && s.activity.Keys == s.networks.at.Keys
    ensures var t := Partly(s, s.networks.order, now);
            t.networks == LiveNetworks(s.networks, now) && t.activity == Swept(s, now).activity
  {
    hide LiveEvents;
    FilterSame(s.networks.order, StillKept(s, s.networks.order, now), LivesAt(s.networks, now));
    assert Partly(s, s.networks.order, now).networks.at == LiveNetworks(s.networks, now).at;
  }

  /** The index once the networks `done` have been swept. */
  function PartlyJoins(joins: map<string, Joins>, done: set<string>, now: int): map<string, Joins> {
    map n | n in joins && (n in done ==> |LiveJoins(joins[n], now).order| > 0) ::
      if n in done then LiveJoins(joins[n], now) else joins[n]
  }
}
