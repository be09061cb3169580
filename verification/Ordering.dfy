/** Orders, sorting and filtering: string comparison, and the stable sort and the
    filter that the JavaScript library provides. */
module Ordering {
  import opened Basics

  /** `a < b` on strings: lexicographic, a proper prefix comes first. */
  predicate StrLess(a: string, b: string) {
    |b| > 0 && (|a| == 0 || a[0] < b[0] || (a[0] == b[0] && StrLess(a[1..], b[1..])))
  }

  lemma {:induction false} StrLessTransitive(a: string, b: string, c: string)
    requires StrLess(a, b) && StrLess(b, c)
    ensures StrLess(a, c)
    decreases |a|
  {
    if |a| > 0 && a[0] == b[0] == c[0] {
      StrLessTransitive(a[1..], b[1..], c[1..]);
    }
  }

  lemma {:induction false} StrLessTrichotomy(a: string, b: string)
    ensures StrLess(a, b) || StrLess(b, a) || a == b
    ensures !(StrLess(a, b) && StrLess(b, a))
    decreases |a|
  {
    if |a| > 0 && |b| > 0 && a[0] == b[0] {
      StrLessTrichotomy(a[1..], b[1..]);
      if a[1..] == b[1..] {
        assert a == [a[0]] + a[1..] && b == [b[0]] + b[1..];
      }
    }
  }

  /** `less` behaves like a comparator: ties form classes that the order respects. */
  ghost predicate StrictWeakOrder<T(!new)>(less: (T, T) -> bool) {
    && (forall a :: !less(a, a))
    && (forall a, b, c :: less(a, b) && less(b, c) ==> less(a, c))
    && (forall a, b, c :: less(a, c) ==> less(a, b) || less(b, c))
  }

  ghost predicate Sorted<T>(s: seq<T>, less: (T, T) -> bool) {
    forall i, j :: 0 <= i < j < |s| ==> !less(s[j], s[i])
  }

  function Insert<T>(x: T, s: seq<T>, less: (T, T) -> bool): seq<T> {
    if |s| > 0 && less(s[0], x) then [s[0]] + Insert(x, s[1..], less) else [x] + s
  }

  /** The stable sort of `s`: elements that tie keep their relative order. */
  function Sort<T>(s: seq<T>, less: (T, T) -> bool): seq<T> {
    if |s| == 0 then [] else Insert(s[0], Sort(s[1..], less), less)
  }

  lemma {:induction false} InsertContents<T>(x: T, s: seq<T>, less: (T, T) -> bool)
    ensures multiset(Insert(x, s, less)) == multiset{x} + multiset(s)
    ensures |Insert(x, s, less)| == |s| + 1
  {
    if |s| > 0 && less(s[0], x) {
      InsertContents(x, s[1..], less);
      assert s == [s[0]] + s[1..];
    }
  }

  lemma {:induction false} InsertSorted<T(!new)>(x: T, s: seq<T>, less: (T, T) -> bool)
    requires StrictWeakOrder(less) && Sorted(s, less)
    ensures Sorted(Insert(x, s, less), less)
  {
    if |s| > 0 && less(s[0], x) {
      InsertSorted(x, s[1..], less);
      InsertContents(x, s[1..], less);
      var r := Insert(x, s[1..], less);
      forall k | 0 <= k < |r| ensures !less(r[k], s[0]) {
        assert r[k] in multiset(r);
        assert r[k] == x || r[k] in s[1..];
      }
    }
  }

  lemma {:induction false} SortContents<T>(s: seq<T>, less: (T, T) -> bool)
    ensures multiset(Sort(s, less)) == multiset(s)
    ensures |Sort(s, less)| == |s|
    ensures forall x :: x in Sort(s, less) ==> x in s
    ensures forall x :: x in s ==> x in Sort(s, less)
  {
    if |s| > 0 {
      SortContents(s[1..], less);
      InsertContents(s[0], Sort(s[1..], less), less);
      assert s == [s[0]] + s[1..];
    }
    MultisetMembers(Sort(s, less), s);
    MultisetMembers(s, Sort(s, less));
  }

  lemma MultisetMembers<T>(a: seq<T>, b: seq<T>)
    requires multiset(a) == multiset(b)
    ensures forall x :: x in a ==> x in b
  {
    forall x | x in a ensures x in b {
      assert x in multiset(a);
    }
  }

  lemma {:induction false} SortSorted<T(!new)>(s: seq<T>, less: (T, T) -> bool)
    requires StrictWeakOrder(less)
    ensures Sorted(Sort(s, less), less)
  {
    if |s| > 0 {
      SortSorted(s[1..], less);
      InsertSorted(s[0], Sort(s[1..], less), less);
    }
  }

  /** Distinct elements never tie. */
  ghost predicate NoTies<T>(s: seq<T>, less: (T, T) -> bool) {
    forall x, y :: x in s && y in s && x != y ==> less(x, y) || less(y, x)
  }

  lemma SortedHead<T>(s: seq<T>, x: T, less: (T, T) -> bool)
    requires Sorted(s, less) && x in s && x != s[0]
    ensures !less(x, s[0])
  {
    var i :| 0 <= i < |s| && s[i] == x;
  }

  /** Without ties there is only one sorted arrangement of a collection. */
  lemma {:induction false} SortedUnique<T>(s: seq<T>, t: seq<T>, less: (T, T) -> bool)
    requires Sorted(s, less) && Sorted(t, less)
    requires multiset(s) == multiset(t) && NoTies(s, less)
    ensures s == t
    decreases |s|
  {
    assert |s| == |multiset(s)| == |multiset(t)| == |t|;
    if |s| > 0 {
      SameHead(s, t, less);
      TailOfSorted(s, less);
      TailOfSorted(t, less);
      SortedUnique(s[1..], t[1..], less);
    }
  }

  lemma TailOfSorted<T>(s: seq<T>, less: (T, T) -> bool)
    requires |s| > 0 && Sorted(s, less)
    ensures Sorted(s[1..], less)
    ensures NoTies(s, less) ==> NoTies(s[1..], less)
    ensures multiset(s[1..]) == multiset(s) - multiset{s[0]}
  {
    assert s == [s[0]] + s[1..];
  }

  lemma SameHead<T>(s: seq<T>, t: seq<T>, less: (T, T) -> bool)
    requires Sorted(s, less) && Sorted(t, less) && |s| > 0 && |t| > 0
    requires multiset(s) == multiset(t) && NoTies(s, less)
    ensures s[0] == t[0]
  {
    assert s[0] in multiset(t) && t[0] in multiset(s);
    if s[0] != t[0] {
      SortedHead(s, t[0], less);
      SortedHead(t, s[0], less);
    }
  }

  /** Sorting forgets the input order when elements never tie. */
  lemma SortIgnoresInputOrder<T(!new)>(s: seq<T>, t: seq<T>, less: (T, T) -> bool)
    requires StrictWeakOrder(less) && multiset(s) == multiset(t) && NoTies(s, less)
    ensures Sort(s, less) == Sort(t, less)
  {
    SortSorted(s, less);
    SortSorted(t, less);
    SortContents(s, less);
    SortContents(t, less);
    SortedUnique(Sort(s, less), Sort(t, less), less);
  }

  /** Comparators that agree on the elements sort them alike. */
  lemma {:induction false} SortAlike<T>(s: seq<T>, less: (T, T) -> bool, other: (T, T) -> bool)
    requires forall x, y :: x in s && y in s ==> less(x, y) == other(x, y)
    ensures Sort(s, less) == Sort(s, other)
  {
    if |s| > 0 {
      assert forall x :: x in s[1..] ==> x in s;
      SortAlike(s[1..], less, other);
      SortContents(s[1..], less);
      var r := Sort(s[1..], less);
      assert s[0] in s;
      forall y | y in r ensures less(y, s[0]) == other(y, s[0]) {
        assert y in Sort(s[1..], less);
        assert y in s[1..];
      }
      InsertAlike(s[0], r, less, other);
    }
  }

  lemma {:induction false} InsertAlike<T>(x: T, s: seq<T>, less: (T, T) -> bool, other: (T, T) -> bool)
    requires forall y :: y in s ==> less(y, x) == other(y, x)
    ensures Insert(x, s, less) == Insert(x, s, other)
  {
    if |s| > 0 {
      assert s[0] in s && forall y :: y in s[1..] ==> y in s;
      InsertAlike(x, s[1..], less, other);
    }
  }

  ghost predicate Distinct<T>(s: seq<T>) {
    forall i, j :: 0 <= i < j < |s| ==> s[i] != s[j]
  }

  /** Duplicate-free sequences with the same members are permutations of each other. */
  lemma {:induction false} SameMembers<T>(s: seq<T>, t: seq<T>)
    requires Distinct(s) && Distinct(t)
    requires forall x :: x in s <==> x in t
    ensures multiset(s) == multiset(t)
  {
    forall x ensures multiset(s)[x] == multiset(t)[x] {
      DistinctCount(s, x);
      DistinctCount(t, x);
    }
  }

  lemma {:induction false} DistinctCount<T>(s: seq<T>, x: T)
    requires Distinct(s)
    ensures multiset(s)[x] == if x in s then 1 else 0
  {
    if |s| > 0 {
      assert s == [s[0]] + s[1..];
      DistinctCount(s[1..], x);
    }
  }

  /** The elements of `s` that satisfy `keep`, in order. */
  function Filter<T>(s: seq<T>, keep: T -> bool): seq<T> {
    if |s| == 0 then [] else (if keep(s[0]) then [s[0]] else []) + Filter(s[1..], keep)
  }

  lemma {:induction false} FilterMembers<T>(s: seq<T>, keep: T -> bool)
    ensures forall x :: x in Filter(s, keep) ==> x in s && keep(x)
    ensures forall x :: x in s && keep(x) ==> x in Filter(s, keep)
    ensures |Filter(s, keep)| <= |s|
  {
    if |s| > 0 {
      FilterMembers(s[1..], keep);
      assert s == [s[0]] + s[1..];
    }
  }

  lemma {:induction false} FilterSorted<T>(s: seq<T>, keep: T -> bool, less: (T, T) -> bool)
    requires Sorted(s, less)
    ensures Sorted(Filter(s, keep), less)
  {
    if |s| > 0 {
      TailOfSorted(s, less);
      FilterSorted(s[1..], keep, less);
      FilterMembers(s[1..], keep);
      var r := Filter(s[1..], keep);
      forall k | 0 <= k < |r| ensures !less(r[k], s[0]) {
        assert r[k] in Filter(s[1..], keep);
        assert r[k] in s[1..];
      }
    }
  }

  lemma {:induction false} FilterDistinct<T>(s: seq<T>, keep: T -> bool)
    requires Distinct(s)
    ensures Distinct(Filter(s, keep))
  {
    if |s| > 0 {
      FilterDistinct(s[1..], keep);
      FilterMembers(s[1..], keep);
    }
  }

  lemma SortDistinct<T>(s: seq<T>, less: (T, T) -> bool)
    requires Distinct(s)
    ensures Distinct(Sort(s, less))
  {
    SortContents(s, less);
    SameCountsDistinct(s, Sort(s, less));
  }

  lemma SameCountsDistinct<T>(s: seq<T>, r: seq<T>)
    requires Distinct(s) && multiset(r) == multiset(s)
    ensures Distinct(r)
  {
    forall i, j | 0 <= i < j < |r| ensures r[i] != r[j] {
      DistinctCount(s, r[j]);
      CountBefore(r, j);
      assert r[i] in r[..j];
    }
  }

  /** A prefix lacks whatever follows it and occurs only once. */
  lemma CountBefore<T>(r: seq<T>, j: nat)
    requires j < |r| && multiset(r)[r[j]] <= 1
    ensures r[j] !in r[..j]
  {
    assert r == r[..j] + [r[j]] + r[j + 1..];
    assert multiset(r)[r[j]] == multiset(r[..j])[r[j]] + 1 + multiset(r[j + 1..])[r[j]];
  }

  /** Every earlier element stands in `rel` to every later one. */
  ghost predicate Pairwise<T>(s: seq<T>, rel: (T, T) -> bool) {
    forall i, j :: 0 <= i < j < |s| ==> rel(s[i], s[j])
  }

  lemma {:induction false} FilterPairwise<T>(s: seq<T>, keep: T -> bool, rel: (T, T) -> bool)
    requires Pairwise(s, rel)
    ensures Pairwise(Filter(s, keep), rel)
  {
    if |s| > 0 {
      FilterPairwise(s[1..], keep, rel);
      FilterMembers(s[1..], keep);
      var r := Filter(s[1..], keep);
      forall k | 0 <= k < |r| ensures rel(s[0], r[k]) {
        assert r[k] in Filter(s[1..], keep);
        assert r[k] in s[1..];
      }
    }
  }

  lemma {:induction false} FilterConcat<T>(a: seq<T>, b: seq<T>, keep: T -> bool)
    ensures Filter(a + b, keep) == Filter(a, keep) + Filter(b, keep)
  {
    if |a| == 0 {
      assert a + b == b;
    } else {
      FilterConcat(a[1..], b, keep);
      FilterHead(a[0], a[1..] + b, keep);
      FilterHead(a[0], a[1..], keep);
      hide Filter;
      assert a + b == [a[0]] + (a[1..] + b) && a == [a[0]] + a[1..];
    }
  }

  lemma FilterHead<T>(x: T, s: seq<T>, keep: T -> bool)
    ensures Filter([x] + s, keep) == (if keep(x) then [x] else []) + Filter(s, keep)
  {
    assert ([x] + s)[1..] == s;
  }

  /** Filtering twice is filtering by both tests. */
  lemma {:induction false} FilterFilter<T>(s: seq<T>, first: T -> bool, second: T -> bool, both: T -> bool)
    requires forall x :: x in s ==> (both(x) <==> first(x) && second(x))
    ensures Filter(Filter(s, first), second) == Filter(s, both)
  {
    if |s| > 0 {
      FilterFilter(s[1..], first, second, both);
      FilterConcat(if first(s[0]) then [s[0]] else [], Filter(s[1..], first), second);
    }
  }

  /** The sort is stable: within a class of ties the input order survives. */
  lemma {:induction false} SortStable<T>(s: seq<T>, less: (T, T) -> bool, tied: T -> bool)
    requires forall x, y :: x in s && y in s && tied(x) && tied(y) ==> !less(x, y)
    ensures Filter(Sort(s, less), tied) == Filter(s, tied)
  {
    if |s| > 0 {
      SortStable(s[1..], less, tied);
      SortContents(s[1..], less);
      var r := Sort(s[1..], less);
      forall y | y in r && tied(s[0]) && tied(y) ensures !less(y, s[0]) {
        assert y in Sort(s[1..], less);
        assert y in s[1..] && s[0] in s;
      }
      InsertStable(s[0], r, less, tied);
    }
  }

  lemma {:induction false} InsertStable<T>(x: T, s: seq<T>, less: (T, T) -> bool, tied: T -> bool)
    requires tied(x) ==> forall y :: y in s && tied(y) ==> !less(y, x)
    ensures Filter(Insert(x, s, less), tied) == (if tied(x) then [x] else []) + Filter(s, tied)
  {
    hide Filter;
    FilterOne(x, tied);
    if |s| > 0 && less(s[0], x) {
      var h, t := s[0], s[1..];
      InsertStable(x, t, less, tied);
      FilterOne(h, tied);
      FilterConcat([h], Insert(x, t, less), tied);
      FilterConcat([h], t, tied);
      assert s == [h] + t;
    } else {
      FilterConcat([x], s, tied);
    }
  }

  lemma FilterOne<T>(x: T, keep: T -> bool)
    ensures Filter([x], keep) == if keep(x) then [x] else []
  {
  }

  lemma {:induction false} FilterAll<T>(s: seq<T>, keep: T -> bool)
    requires forall x :: x in s ==> keep(x)
    ensures Filter(s, keep) == s
  {
    if |s| > 0 {
      FilterAll(s[1..], keep);
      assert s == [s[0]] + s[1..];
    }
  }

  lemma {:induction false} FilterSame<T>(s: seq<T>, a: T -> bool, b: T -> bool)
    requires forall x :: x in s ==> (a(x) <==> b(x))
    ensures Filter(s, a) == Filter(s, b)
  {
    if |s| > 0 {
      assert forall x :: x in s[1..] ==> x in s;
      FilterSame(s[1..], a, b);
    }
  }

  lemma FilterAppend<T>(s: seq<T>, x: T, keep: T -> bool)
    ensures Filter(s + [x], keep) == Filter(s, keep) + if keep(x) then [x] else []
  {
    FilterConcat(s, [x], keep);
    FilterOne(x, keep);
  }

  // ------------------------------------- comparisons that need not be orders

  /** No three elements come before one another in turn. */
  ghost predicate NoCircle<T>(s: seq<T>, less: (T, T) -> bool) {
    forall x, y, z :: x in s && y in s && z in s && less(x, y) && less(y, z) ==> !less(z, x)
  }

  ghost predicate Asymmetric<T>(s: seq<T>, less: (T, T) -> bool) {
    forall x, y :: x in s && y in s && less(x, y) ==> !less(y, x)
  }

  /** Every input order of these elements is sorted into the same list. */
  ghost predicate SortsAlike<T(!new)>(s: seq<T>, less: (T, T) -> bool) {
    forall t :: multiset(t) == multiset(s) ==> Sort(t, less) == Sort(s, less)
  }

  function Below<T(==)>(s: seq<T>, x: T, less: (T, T) -> bool): set<T> {
    set y | y in s && less(y, x)
  }

  function ByCount<T(==)>(s: seq<T>, less: (T, T) -> bool): (T, T) -> bool {
    (x: T, y: T) => |Below(s, x, less)| < |Below(s, y, less)|
  }

  /** Without ties and circles, the number of predecessors says who comes first. */
  lemma CountDecides<T>(s: seq<T>, less: (T, T) -> bool, x: T, y: T)
    requires Asymmetric(s, less) && NoTies(s, less) && NoCircle(s, less) && x in s && y in s && less(x, y)
    ensures |Below(s, x, less)| < |Below(s, y, less)|
  {
    var a, b := Below(s, x, less), Below(s, y, less);
    forall z | z in a ensures z in b {
      assert z != y && !less(y, z);
    }
    assert x in b && x !in a;
    SubsetSize(a, b);
  }

  lemma SortsAlikeWithoutCircle<T(!new)>(s: seq<T>, less: (T, T) -> bool)
    requires Asymmetric(s, less) && NoTies(s, less) && NoCircle(s, less)
    ensures SortsAlike(s, less)
  {
    var count := ByCount(s, less);
    forall x, y | x in s && y in s ensures less(x, y) == count(x, y) {
      if less(x, y) {
        CountDecides(s, less, x, y);
      } else if x != y {
        CountDecides(s, less, y, x);
      }
    }
    assert NoTies(s, count);
    forall t | multiset(t) == multiset(s) ensures Sort(t, less) == Sort(s, less) {
      MultisetMembers(t, s);
      SortAlike(s, less, count);
      SortAlike(t, less, count);
      SortIgnoresInputOrder(s, t, count);
    }
  }

  /** What is inserted later leaves the order of what is there. */
  lemma {:induction false} SortKeepsTail<T>(s: seq<T>, tail: seq<T>, less: (T, T) -> bool, keep: T -> bool)
    requires (forall x :: x in s ==> !keep(x)) && (forall x :: x in tail ==> keep(x))
    ensures Filter(Sort(s + tail, less), keep) == Sort(tail, less)
  {
    SortContents(tail, less);
    if |s| == 0 {
      assert s + tail == tail;
      FilterAll(Sort(tail, less), keep);
    } else {
      assert s[0] in s && (s + tail)[0] == s[0] && (s + tail)[1..] == s[1..] + tail;
      SortKeepsTail(s[1..], tail, less, keep);
      InsertStable(s[0], Sort(s[1..] + tail, less), less, keep);
    }
  }

  function Among<T(==)>(few: seq<T>): T -> bool {
    x => x in few
  }

  function NotAmong<T(==)>(few: seq<T>): T -> bool {
    x => x !in few
  }

  lemma DistinctConcat<T>(a: seq<T>, b: seq<T>)
    requires Distinct(a) && Distinct(b) && forall x :: x in a ==> x !in b
    ensures Distinct(a + b)
  {
    forall i, j | 0 <= i < j < |a + b| ensures (a + b)[i] != (a + b)[j] {
      assert i < |a| <= j ==> a[i] in a && b[j - |a|] in b;
    }
  }

  lemma PutLast<T>(s: seq<T>, tail: seq<T>)
    requires Distinct(s) && Distinct(tail) && forall x :: x in tail ==> x in s
    ensures multiset(Filter(s, NotAmong(tail)) + tail) == multiset(s)
    ensures forall x :: x in Filter(s, NotAmong(tail)) ==> x !in tail
  {
    var rest := Filter(s, NotAmong(tail));
    FilterMembers(s, NotAmong(tail));
    FilterDistinct(s, NotAmong(tail));
    hide Distinct, Filter;
    DistinctConcat(rest, tail);
    assert forall x :: x in rest + tail <==> x in rest || x in tail;
    SameMembers(rest + tail, s);
  }

  /** Put last, some of the elements are sorted as if they were alone. */
  lemma TailDecides<T(!new)>(s: seq<T>, tail: seq<T>, less: (T, T) -> bool)
    requires Distinct(s) && Distinct(tail) && SortsAlike(s, less) && forall x :: x in tail ==> x in s
    ensures Filter(Sort(s, less), Among(tail)) == Sort(tail, less)
  {
    hide Distinct, Filter, Sort;
    PutLast(s, tail);
    SortKeepsTail(Filter(s, NotAmong(tail)), tail, less, Among(tail));
  }

  lemma TailsDecide<T(!new)>(s: seq<T>, tail: seq<T>, other: seq<T>, less: (T, T) -> bool)
    requires Distinct(s) && Distinct(tail) && Distinct(other) && SortsAlike(s, less)
    requires (forall x :: x in tail ==> x in s) && (forall x :: x in tail <==> x in other)
    ensures Sort(tail, less) == Sort(other, less)
  {
    TailDecides(s, tail, less);
    TailDecides(s, other, less);
    FilterSame(Sort(s, less), Among(tail), Among(other));
  }

  lemma SortTwo<T>(a: T, b: T, less: (T, T) -> bool)
    ensures Sort([a, b], less) == if less(b, a) then [b, a] else [a, b]
  {
    assert [a, b][1..] == [b] && [b][1..] == [];
    assert Sort([b], less) == [b];
    assert Insert(a, [], less) == [a];
  }

  lemma SortThree<T>(a: T, b: T, c: T, less: (T, T) -> bool)
    requires !less(b, a) && !less(c, b)
    ensures Sort([a, b, c], less) == [a, b, c]
  {
    assert [a, b, c][1..] == [b, c] && [b, c][1..] == [c] && [c][1..] == [];
    assert Sort([c], less) == [c];
    assert Sort([b, c], less) == [b, c];
  }

  lemma SortsAlikeDecidesPairs<T(!new)>(s: seq<T>, less: (T, T) -> bool, x: T, y: T)
    requires Distinct(s) && SortsAlike(s, less) && x in s && y in s && x != y
    ensures less(x, y) || less(y, x)
  {
    SortTwo(x, y, less);
    SortTwo(y, x, less);
    hide SortsAlike, Sort;
    TailsDecide(s, [x, y], [y, x], less);
    assert [x, y][0] != [y, x][0];
  }

  lemma SortsAlikeHasNoCircle<T(!new)>(s: seq<T>, less: (T, T) -> bool, x: T, y: T, z: T)
    requires Distinct(s) && SortsAlike(s, less) && x in s && y in s && z in s
    requires x != y && y != z && z != x && !less(y, x) && !less(z, y)
    ensures less(x, z)
  {
    hide *;
    if !less(x, z) {
      SortThree(x, y, z, less);
      SortThree(z, x, y, less);
      DistinctThree(x, y, z);
      DistinctThree(z, x, y);
      TailsDecide(s, [x, y, z], [z, x, y], less);
    }
  }

  lemma DistinctThree<T>(x: T, y: T, z: T)
    requires x != y && y != z && z != x
    ensures Distinct([x, y, z])
  {
  }

  /** A comparison sorts every input order of these elements into the same list if and
      only if it decides every pair and never goes round in a circle of three. */
  lemma SortsAlikeIffNoCircle<T(!new)>(s: seq<T>, less: (T, T) -> bool)
    requires Distinct(s) && Asymmetric(s, less)
    ensures SortsAlike(s, less) <==> NoTies(s, less) && NoCircle(s, less)
  {
    if NoTies(s, less) && NoCircle(s, less) {
      SortsAlikeWithoutCircle(s, less);
    }
    if SortsAlike(s, less) {
      hide SortsAlike, Distinct;
      forall x, y | x in s && y in s && x != y ensures less(x, y) || less(y, x) {
        SortsAlikeDecidesPairs(s, less, x, y);
      }
      forall x, y, z | x in s && y in s && z in s && less(x, y) && less(y, z) ensures !less(z, x) {
        SortsAlikeHasNoCircle(s, less, x, y, z);
      }
    }
  }
}
