/** The token bucket, exact in thousandths of a token: which demands it admits. */
module RateLimit {
  import opened Basics

  /** 60 tokens, and 6 tokens a second, in thousandths of a token. */
  const CAPACITY: int := 60_000
  const REFILL_PER_MS: int := 6

  datatype State = State(tokens: int, last: int)

  datatype Call = Call(cost: nat, now: int)

  function Refilled(s: State, now: int): int {
    Min(CAPACITY, s.tokens + (now - s.last) * REFILL_PER_MS)
  }

  predicate Granted(s: State, c: Call) {
    Refilled(s, c.now) >= c.cost
  }

  function Taken(s: State, c: Call): State {
    State(Refilled(s, c.now) - (if Granted(s, c) then c.cost else 0), c.now)
  }

  class TokenBucket {
    var tokens: int
    var last: int

    ghost function View(): State
      reads this
    {
      State(tokens, last)
    }

    constructor (now: int)
      ensures View() == State(CAPACITY, now)
    {
      tokens, last := CAPACITY, now;
    }

    method Take(cost: nat, now: int) returns (ok: bool)
      modifies this
      ensures View() == Taken(old(View()), Call(cost, now)) && ok == Granted(old(View()), Call(cost, now))
    {
      tokens := Min(CAPACITY, tokens + (now - last) * REFILL_PER_MS);
      last := now;
      if tokens < cost {
        return false;
      }
      tokens := tokens - cost;
      ok := true;
    }
  }

  // ------------------------------------------------------------------- runs

  function After(start: int, calls: seq<Call>): State {
    if |calls| == 0 then State(CAPACITY, start) else Taken(After(start, calls[..|calls| - 1]), calls[|calls| - 1])
  }

  predicate GrantedAt(start: int, calls: seq<Call>, k: nat)
    requires k < |calls|
  {
    Granted(After(start, calls[..k]), calls[k])
  }

  /** The clock never runs backwards. */
  predicate Timely(start: int, calls: seq<Call>) {
    && (|calls| > 0 ==> start <= calls[0].now)
    && forall i, j :: 0 <= i < j < |calls| ==> calls[i].now <= calls[j].now
  }

  /** What the calls `i..j` asked for. */
  function Demand(calls: seq<Call>, i: nat, j: nat): nat
    requires i <= j <= |calls|
  {
    if i == j then 0 else Demand(calls, i, j - 1) + calls[j - 1].cost
  }

  /** What the calls `i..j` were granted. */
  function Spent(start: int, calls: seq<Call>, i: nat, j: nat): nat
    requires i <= j <= |calls|
  {
    if i == j then 0 else
      Spent(start, calls, i, j - 1) + (if GrantedAt(start, calls, j - 1) then calls[j - 1].cost else 0)
  }

  function Allowance(calls: seq<Call>, i: nat, j: nat): int
    requires i < j <= |calls|
  {
    CAPACITY + (calls[j - 1].now - calls[i].now) * REFILL_PER_MS
  }

  lemma AfterStep(start: int, calls: seq<Call>, k: nat)
    requires k < |calls|
    ensures After(start, calls[..k + 1]) == Taken(After(start, calls[..k]), calls[k])
  {
    assert calls[..k + 1][..k] == calls[..k];
  }

  lemma {:induction false} TokensInRange(start: int, calls: seq<Call>, k: nat)
    requires Timely(start, calls) && k <= |calls|
    ensures 0 <= After(start, calls[..k]).tokens <= CAPACITY
    ensures After(start, calls[..k]).last == if k == 0 then start else calls[k - 1].now
  {
    if k > 0 {
      TokensInRange(start, calls, k - 1);
      AfterStep(start, calls, k - 1);
    }
  }

  /** In every window, what is granted plus what is left stays within the burst and
      the refill of the window. */
  lemma {:induction false} WindowBound(start: int, calls: seq<Call>, i: nat, j: nat)
    requires Timely(start, calls) && i < j <= |calls|
    ensures Spent(start, calls, i, j) + After(start, calls[..j]).tokens <= Allowance(calls, i, j)
  {
    TokensInRange(start, calls, j - 1);
    AfterStep(start, calls, j - 1);
    assert Spent(start, calls, i, i) == 0;
    if i < j - 1 {
      WindowBound(start, calls, i, j - 1);
    }
  }

  /** Either every call so far was within the burst, or some window saturates. */
  lemma {:induction false} Saturation(start: int, calls: seq<Call>, k: nat) returns (i: nat)
    requires Timely(start, calls) && k < |calls|
    requires forall m :: 0 <= m < k ==> GrantedAt(start, calls, m)
    ensures i <= k
    ensures Refilled(After(start, calls[..k]), calls[k].now) == Allowance(calls, i, k + 1) - Demand(calls, i, k)
  {
    TokensInRange(start, calls, k);
    if After(start, calls[..k]).tokens + (calls[k].now - After(start, calls[..k]).last) * REFILL_PER_MS >= CAPACITY {
      i := k;
    } else {
      i := Saturation(start, calls, k - 1);
      AfterStep(start, calls, k - 1);
      assert GrantedAt(start, calls, k - 1);
    }
  }

  /** What every window leaves bounds a call, and one window leaves no more. */
  lemma {:induction false} RoomIsExact(start: int, calls: seq<Call>, k: nat) returns (i: nat)
    requires Timely(start, calls) && k < |calls|
    ensures i <= k
    ensures Refilled(After(start, calls[..k]), calls[k].now) == Allowance(calls, i, k + 1) - Spent(start, calls, i, k)
  {
    TokensInRange(start, calls, k);
    if After(start, calls[..k]).tokens + (calls[k].now - After(start, calls[..k]).last) * REFILL_PER_MS >= CAPACITY {
      i := k;
    } else {
      i := RoomIsExact(start, calls, k - 1);
      AfterStep(start, calls, k - 1);
      RoomAfter(start, calls, k, i);
    }
  }

  lemma RoomAfter(start: int, calls: seq<Call>, k: nat, i: nat)
    requires i < k < |calls| && After(start, calls[..k]) == Taken(After(start, calls[..k - 1]), calls[k - 1])
    requires Refilled(After(start, calls[..k - 1]), calls[k - 1].now)
             == Allowance(calls, i, k) - Spent(start, calls, i, k - 1)
    requires After(start, calls[..k]).tokens + (calls[k].now - After(start, calls[..k]).last) * REFILL_PER_MS < CAPACITY
    ensures Refilled(After(start, calls[..k]), calls[k].now) == Allowance(calls, i, k + 1) - Spent(start, calls, i, k)
  {
    hide After;
  }

  lemma RoomIsBound(start: int, calls: seq<Call>, i: nat, k: nat)
    requires Timely(start, calls) && i <= k < |calls|
    ensures Refilled(After(start, calls[..k]), calls[k].now) <= Allowance(calls, i, k + 1) - Spent(start, calls, i, k)
  {
    TokensInRange(start, calls, k);
    if i < k {
      WindowBound(start, calls, i, k);
    }
  }

  /** In any sequence, refusals included, a call is granted if and only if, in every window
      that ends with it, what was granted so far and its own cost stay within the burst plus
      the refill of the window. What was refused counts for nothing. */
  lemma GrantedIffRoom(start: int, calls: seq<Call>, k: nat)
    requires Timely(start, calls) && k < |calls|
    ensures GrantedAt(start, calls, k) <==>
            forall i :: 0 <= i <= k ==>
              Spent(start, calls, i, k) + calls[k].cost <= 60000 + 6 * (calls[k].now - calls[i].now)
  {
    var i := RoomIsExact(start, calls, k);
    forall i | 0 <= i <= k ensures Refilled(After(start, calls[..k]), calls[k].now)
                                   <= Allowance(calls, i, k + 1) - Spent(start, calls, i, k) {
      RoomIsBound(start, calls, i, k);
    }
    hide After, Spent;
  }

  /** A refused call costs nothing: whatever comes later is decided as if it had not been
      made. */
  lemma RefusalIsFree(s: State, c: Call, d: Call)
    requires !Granted(s, c) && s.last <= c.now <= d.now
    ensures Granted(Taken(s, c), d) == Granted(s, d) && Taken(Taken(s, c), d) == Taken(s, d)
  {
  }

  /** A whole sequence of calls is granted if and only if no window of it asks for
      more than the burst plus the refill of that window. */
  lemma AdmitsExactlyTheRate(start: int, calls: seq<Call>)
    requires Timely(start, calls)
    ensures (forall k :: 0 <= k < |calls| ==> GrantedAt(start, calls, k)) <==>
            (forall i, j :: 0 <= i < j <= |calls| ==> Demand(calls, i, j) <= Allowance(calls, i, j))
  {
    if forall k :: 0 <= k < |calls| ==> GrantedAt(start, calls, k) {
      forall i, j | 0 <= i < j <= |calls| ensures Demand(calls, i, j) <= Allowance(calls, i, j) {
        AllGrantedIsDemand(start, calls, i, j);
        TokensInRange(start, calls, j);
        WindowBound(start, calls, i, j);
      }
    }
    if forall i, j :: 0 <= i < j <= |calls| ==> Demand(calls, i, j) <= Allowance(calls, i, j) {
      ModestCallsGranted(start, calls, |calls|);
    }
  }

  lemma {:induction false} AllGrantedIsDemand(start: int, calls: seq<Call>, i: nat, j: nat)
    requires i <= j <= |calls| && forall k :: 0 <= k < |calls| ==> GrantedAt(start, calls, k)
    ensures Spent(start, calls, i, j) == Demand(calls, i, j)
  {
    if i < j {
      AllGrantedIsDemand(start, calls, i, j - 1);
    }
  }

  lemma {:induction false} ModestCallsGranted(start: int, calls: seq<Call>, n: nat)
    requires Timely(start, calls) && n <= |calls|
    requires forall i, j :: 0 <= i < j <= |calls| ==> Demand(calls, i, j) <= Allowance(calls, i, j)
    ensures forall k :: 0 <= k < n ==> GrantedAt(start, calls, k)
  {
    if n > 0 {
      ModestCallsGranted(start, calls, n - 1);
      var i := Saturation(start, calls, n - 1);
      assert Demand(calls, i, n) <= Allowance(calls, i, n);
    }
  }
}
