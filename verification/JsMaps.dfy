/** The JavaScript `Map`: a finite map that remembers insertion order. */
module JsMaps {
  import opened Ordering

  datatype JsMap<K(==), V> = JsMap(at: map<K, V>, order: seq<K>)

  ghost predicate MapOk<K, V>(m: JsMap<K, V>) {
    Distinct(m.order) && (forall k :: k in m.order ==> k in m.at) && (forall k :: k in m.at ==> k in m.order)
  }

  function EmptyMap<K, V>(): JsMap<K, V> {
    JsMap(map[], [])
  }

  /** Setting a present key keeps its place; a new key goes last. */
  function Put<K(==), V>(m: JsMap<K, V>, k: K, v: V): JsMap<K, V> {
    JsMap(m.at[k := v], if k in m.at then m.order else m.order + [k])
  }

  function Except<K(==)>(k: K): K -> bool {
    x => x != k
  }

  function Delete<K(==), V>(m: JsMap<K, V>, k: K): JsMap<K, V> {
    JsMap(m.at - {k}, Filter(m.order, Except(k)))
  }

  /** Keeps the keys that satisfy `keep`. */
  function Retain<K(==), V>(m: JsMap<K, V>, keep: K -> bool): JsMap<K, V> {
    JsMap(map k | k in m.at && keep(k) :: m.at[k], Filter(m.order, keep))
  }

  /** The values in iteration order. */
  function Values<K(==), V>(m: JsMap<K, V>): seq<V>
    requires MapOk(m)
  {
    seq(|m.order|, i requires 0 <= i < |m.order| => assert m.order[i] in m.order; m.at[m.order[i]])
  }

  lemma PutOk<K, V>(m: JsMap<K, V>, k: K, v: V)
    requires MapOk(m)
    ensures MapOk(Put(m, k, v))
  {
    assert forall x :: x in Put(m, k, v).order <==> x in m.order || x == k;
  }

  lemma RetainOk<K, V>(m: JsMap<K, V>, keep: K -> bool)
    requires MapOk(m)
    ensures MapOk(Retain(m, keep))
  {
    FilterMembers(m.order, keep);
    FilterDistinct(m.order, keep);
  }

  lemma DeleteOk<K, V>(m: JsMap<K, V>, k: K)
    requires MapOk(m)
    ensures MapOk(Delete(m, k))
    ensures k in m.at ==> |Delete(m, k).order| == |m.order| - 1
  {
    if k in m.at {
      OneFewer(m.order, k);
    }
    FilterMembers(m.order, Except(k));
    FilterDistinct(m.order, Except(k));
  }

  lemma {:induction false} OneFewer<K>(s: seq<K>, k: K)
    requires Distinct(s) && k in s
    ensures |Filter(s, Except(k))| == |s| - 1
  {
    if s[0] == k {
      assert forall x :: x in s[1..] ==> x != k;
      FilterAll(s[1..], Except(k));
    } else {
      assert k in s[1..];
      OneFewer(s[1..], k);
    }
  }

  /** Deleting from a selection is a smaller selection. */
  lemma RetainDelete<K, V>(m: JsMap<K, V>, keep: K -> bool, k: K, keep': K -> bool)
    requires forall x :: x in m.order || x in m.at ==> (keep'(x) <==> keep(x) && x != k)
    ensures Delete(Retain(m, keep), k) == Retain(m, keep')
  {
    FilterFilter(m.order, keep, Except(k), keep');
  }

  lemma RetainSame<K, V>(m: JsMap<K, V>, a: K -> bool, b: K -> bool)
    requires forall x :: x in m.order || x in m.at ==> (a(x) <==> b(x))
    ensures Retain(m, a) == Retain(m, b)
  {
    FilterSame(m.order, a, b);
  }

  // Deleting while iterating: what is left once the keys `done` have been visited.

  function SoFar<K(==)>(done: seq<K>, keep: K -> bool): K -> bool {
    k => k in done ==> keep(k)
  }

  lemma SoFarBegin<K, V>(m: JsMap<K, V>, keep: K -> bool)
    ensures Retain(m, SoFar([], keep)) == m
  {
    FilterAll(m.order, SoFar([], keep));
  }

  lemma SoFarAdvance<K, V>(m: JsMap<K, V>, i: nat, keep: K -> bool)
    requires MapOk(m) && i < |m.order|
    ensures var k := m.order[i];
            var before, after := Retain(m, SoFar(m.order[..i], keep)), Retain(m, SoFar(m.order[..i + 1], keep));
            && k in before.at && before.at[k] == m.at[k] && k in m.at
            && after == if keep(k) then before else Delete(before, k)
  {
    var k := m.order[i];
    var a, b := SoFar(m.order[..i], keep), SoFar(m.order[..i + 1], keep);
    assert m.order[..i + 1] == m.order[..i] + [k];
    assert k in m.order && k !in m.order[..i];
    if keep(k) {
      RetainSame(m, a, b);
    } else {
      RetainDelete(m, a, k, b);
    }
  }

  lemma SoFarEnd<K, V>(m: JsMap<K, V>, keep: K -> bool)
    requires MapOk(m)
    ensures Retain(m, SoFar(m.order, keep)) == Retain(m, keep)
  {
    RetainSame(m, SoFar(m.order, keep), keep);
  }
}
