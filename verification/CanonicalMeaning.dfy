/** Two JSON values have the same canonical text exactly when they have the same
    content. */
module CanonicalMeaning {
  import opened Ordering
  import opened CanonicalJson

  // --------------------------------------------------------------- key order

  lemma {:induction false} TextLessTransitive(a: Text, b: Text, c: Text)
    requires TextLess(a, b) && TextLess(b, c)
    ensures TextLess(a, c)
    decreases |a|
  {
    if |a| > 0 && a[0] == b[0] == c[0] {
      TextLessTransitive(a[1..], b[1..], c[1..]);
    }
  }

  lemma {:induction false} TextLessTrichotomy(a: Text, b: Text)
    ensures TextLess(a, b) || TextLess(b, a) || a == b
    ensures !(TextLess(a, b) && TextLess(b, a))
    decreases |a|
  {
    if |a| > 0 && |b| > 0 && a[0] == b[0] {
      TextLessTrichotomy(a[1..], b[1..]);
      if a[1..] == b[1..] {
        assert a == [a[0]] + a[1..] && b == [b[0]] + b[1..];
      }
    }
  }

  lemma KeysAreOrdered()
    ensures StrictWeakOrder(KeyBefore)
  {
    forall a: Field, b: Field
      ensures (KeyBefore(a, b) || KeyBefore(b, a) || a.key == b.key) && !(KeyBefore(a, b) && KeyBefore(b, a))
    {
      TextLessTrichotomy(a.key, b.key);
    }
    forall a, b, c | KeyBefore(a, b) && KeyBefore(b, c) ensures KeyBefore(a, c) {
      TextLessTransitive(a.key, b.key, c.key);
    }
    forall a: Field, b: Field, c: Field | KeyBefore(a, c) ensures KeyBefore(a, b) || KeyBefore(b, c) {
      assert a.key == b.key ==> KeyBefore(b, c);
    }
    hide TextLess;
  }

  /** What is printed is sorted and has no key twice. */
  lemma ShownIsSorted(fields: seq<Field>)
    ensures Sorted(Shown(fields), KeyBefore)
    ensures DistinctKeys(fields) ==> DistinctKeys(Shown(fields))
  {
    KeysAreOrdered();
    SortSorted(Filter(fields, IsDefined), KeyBefore);
    if DistinctKeys(fields) {
      assert Distinct(fields);
      FilterDistinct(fields, IsDefined);
      SortDistinct(Filter(fields, IsDefined), KeyBefore);
      var shown := Shown(fields);
      forall i, j | 0 <= i < j < |shown| ensures shown[i].key != shown[j].key {
        assert shown[i] in shown && shown[j] in shown;
        var k :| 0 <= k < |fields| && fields[k] == shown[i];
        var l :| 0 <= l < |fields| && fields[l] == shown[j];
        assert k != l;
        assert DistinctKeys(fields);
      }
    }
  }

  lemma {:induction false} SortOfSorted<T>(s: seq<T>, less: (T, T) -> bool)
    requires Sorted(s, less)
    ensures Sort(s, less) == s
  {
    if |s| > 0 {
      SortOfSorted(s[1..], less);
      assert s == [s[0]] + s[1..];
    }
  }

  lemma {:induction false} NormFieldsAt(parent: Value, shown: seq<Field>, k: nat)
    requires parent.Obj? && (forall f :: f in shown ==> f in parent.fields) && k < |shown|
    ensures NormFields(parent, shown)[k] == Field(shown[k].key, Norm(shown[k].value))
    decreases k
  {
    if k > 0 {
      NormFieldsAt(parent, shown[1..], k - 1);
    }
  }

  lemma NormKeepsDefined(v: Value)
    ensures Norm(v) == Undefined <==> v == Undefined
  {
  }

  function ObjectOf(v: Value): seq<Field>
    requires v.Obj?
  {
    NormFields(v, Shown(v.fields))
  }

  lemma NormalObject(v: Value)
    requires v.Obj? && DistinctKeys(v.fields)
    ensures Sorted(ObjectOf(v), KeyBefore) && DistinctKeys(ObjectOf(v)) && Shown(ObjectOf(v)) == ObjectOf(v)
  {
    var shown, r := Shown(v.fields), ObjectOf(v);
    ShownIsSorted(v.fields);
    forall k | 0 <= k < |shown| ensures r[k].key == shown[k].key && IsDefined(r[k]) {
      NormFieldsAt(v, shown, k);
      assert shown[k] in shown;
      NormKeepsDefined(shown[k].value);
    }
    hide KeyBefore, Shown;
    SameKeysSorted(shown, r);
    AllShown(r);
  }

  lemma SameKeysSorted(s: seq<Field>, t: seq<Field>)
    requires |s| == |t| && (forall k :: 0 <= k < |s| ==> t[k].key == s[k].key)
    requires Sorted(s, KeyBefore) && DistinctKeys(s)
    ensures Sorted(t, KeyBefore) && DistinctKeys(t)
  {
    forall i, j | 0 <= i < j < |t| ensures !KeyBefore(t[j], t[i]) {
      assert !KeyBefore(s[j], s[i]);
    }
  }

  lemma AllShown(s: seq<Field>)
    requires Sorted(s, KeyBefore) && forall k :: 0 <= k < |s| ==> IsDefined(s[k])
    ensures Shown(s) == s
  {
    FilterAll(s, IsDefined);
    SortOfSorted(s, KeyBefore);
  }

  // ------------------------------------------------- the text of a normal form

  /** Normalizing does not change the text. */
  lemma {:induction false} PrintOfNorm(v: Value)
    requires Valid(v)
    ensures Print(Norm(v)) == Print(v)
    decreases v, 1, 0
  {
    match v
    case Arr(items) =>
      PrintOfNormItems(items);
      if NormItems(items) == [Undefined] {
        assert items == [items[0]];
        assert NormItems(items)[0] == Norm(items[0]);
        assert items[0] == Undefined by { NormKeepsDefined(items[0]); }
      }
    case Obj(fields) =>
      NormalObject(v);
      var shown := Shown(fields);
      forall f | f in shown ensures Valid(f.value) {
        var i :| 0 <= i < |fields| && fields[i] == f;
      }
      hide Valid, Shown;
      PrintOfNormFields(v, shown, Norm(v), ObjectOf(v));
    case _ =>
  }

  lemma {:induction false} PrintOfNormItems(items: seq<Value>)
    requires forall i :: 0 <= i < |items| ==> Valid(items[i])
    ensures PrintItems(NormItems(items)) == PrintItems(items)
    decreases items, 0, 0
  {
    if |items| > 0 {
      hide Valid, Print, Norm;
      PrintOfNorm(items[0]);
      PrintOfNormItems(items[1..]);
      assert NormItems(items)[1..] == NormItems(items[1..]);
    }
  }

  lemma {:induction false} PrintOfNormFields(parent: Value, shown: seq<Field>, normal: Value, normed: seq<Field>)
    requires parent.Obj? && forall f :: f in shown ==> f in parent.fields && Valid(f.value)
    requires normal.Obj? && (forall f :: f in normed ==> f in normal.fields) && normed == NormFields(parent, shown)
    ensures PrintFields(normal, normed) == PrintFields(parent, shown)
    decreases parent, 0, |shown|
  {
    if |shown| > 0 {
      assert shown[0] in shown;
      FieldIsSmaller(parent, shown[0]);
      hide Valid, Print, Norm, Quote;
      PrintOfNorm(shown[0].value);
      PrintOfNormFields(parent, shown[1..], normal, normed[1..]);
    }
  }

  // ----------------------------------------------------------------- content

  function Solid(items: seq<Value>): seq<Value> {
    if items == [Undefined] then [] else items
  }

  ghost predicate Has(fields: seq<Field>, key: Text) {
    exists i :: 0 <= i < |fields| && fields[i].key == key && IsDefined(fields[i])
  }

  predicate IsNull(v: Value) {
    v == Null || v == NonFinite
  }

  /** Equal up to the order of keys, fields that are `undefined`, non-finite numbers
      standing for null, and an array of one `undefined` standing for the empty one. */
  ghost predicate SameContent(a: Value, b: Value)
    decreases a
  {
    match a
    case Arr(items) =>
      b.Arr? && |Solid(items)| == |Solid(b.items)|
      && forall i :: 0 <= i < |Solid(items)| ==> SameContent(items[i], Solid(b.items)[i])
    case Obj(fields) =>
      b.Obj? && (forall key :: Has(fields, key) <==> Has(b.fields, key))
      && (forall i, j :: 0 <= i < |fields| && 0 <= j < |b.fields| && fields[i].key == b.fields[j].key
                         && IsDefined(fields[i]) && IsDefined(b.fields[j])
                         ==> SameContent(fields[i].value, b.fields[j].value))
    case _ => if IsNull(a) then IsNull(b) else a == b
  }

  /** The fields of a normal form are the normalized defined fields. */
  lemma ObjectMembers(v: Value, f: Field)
    requires v.Obj?
    ensures f in ObjectOf(v) <==>
            exists i :: 0 <= i < |v.fields| && IsDefined(v.fields[i])
              && f == Field(v.fields[i].key, Norm(v.fields[i].value))
  {
    hide Norm, NormFields;
    var shown, r := Shown(v.fields), ObjectOf(v);
    forall k | 0 <= k < |shown| ensures r[k] == Field(shown[k].key, Norm(shown[k].value)) {
      NormFieldsAt(v, shown, k);
    }
    if f in r {
      var k :| 0 <= k < |r| && r[k] == f;
      assert shown[k] in shown;
      var i :| 0 <= i < |v.fields| && v.fields[i] == shown[k];
      assert f == Field(v.fields[i].key, Norm(v.fields[i].value));
    }
    if i :| 0 <= i < |v.fields| && IsDefined(v.fields[i]) && f == Field(v.fields[i].key, Norm(v.fields[i].value)) {
      assert v.fields[i] in shown;
      var k :| 0 <= k < |shown| && shown[k] == v.fields[i];
      assert r[k] == f;
    }
  }

  /** Objects with the same normalized fields have the same normal form. */
  lemma ObjectsAgree(a: Value, b: Value)
    requires a.Obj? && b.Obj? && DistinctKeys(a.fields) && DistinctKeys(b.fields)
    requires forall f :: f in ObjectOf(a) <==> f in ObjectOf(b)
    ensures ObjectOf(a) == ObjectOf(b)
  {
    var x, y := ObjectOf(a), ObjectOf(b);
    NormalObject(a);
    NormalObject(b);
    hide ObjectOf, Shown, KeyBefore;
    SameMembers(x, y);
    forall f, g | f in x && g in x && f != g ensures KeyBefore(f, g) || KeyBefore(g, f) {
      var i :| 0 <= i < |x| && x[i] == f;
      var j :| 0 <= j < |x| && x[j] == g;
      assert f.key != g.key;
      DifferentKeys(f, g);
    }
    SortedUnique(x, y, KeyBefore);
  }

  lemma DifferentKeys(f: Field, g: Field)
    requires f.key != g.key
    ensures KeyBefore(f, g) || KeyBefore(g, f)
  {
    TextLessTrichotomy(f.key, g.key);
  }

  lemma {:induction false} NormItemsAt(items: seq<Value>, k: nat)
    requires k < |items|
    ensures NormItems(items)[k] == Norm(items[k])
    decreases k
  {
    if k > 0 {
      NormItemsAt(items[1..], k - 1);
    }
  }

  /** Normal forms are equal exactly for values of the same content. */
  lemma {:induction false} NormIffSame(a: Value, b: Value)
    requires Valid(a) && Valid(b)
    ensures Norm(a) == Norm(b) <==> SameContent(a, b)
    decreases a
  {
    if a.Arr? && b.Arr? {
      ArraysSame(a, b);
    } else if a.Obj? && b.Obj? {
      ObjectsSame(a, b);
    }
  }

  lemma {:induction false} ArraysSame(a: Value, b: Value)
    requires Valid(a) && Valid(b) && a.Arr? && b.Arr?
    ensures Norm(a) == Norm(b) <==> SameContent(a, b)
    decreases a, 0
  {
    var xs, ys := Solid(a.items), Solid(b.items);
    SolidNorm(a.items);
    SolidNorm(b.items);
    forall i | 0 <= i < |xs| && i < |ys|
      ensures NormItems(xs)[i] == NormItems(ys)[i] <==> SameContent(a.items[i], ys[i]) {
      NormItemsAt(xs, i);
      NormItemsAt(ys, i);
      NormIffSame(a.items[i], ys[i]);
    }
    hide Valid, NormItems;
  }

  lemma SolidNorm(items: seq<Value>)
    ensures Norm(Arr(items)) == Arr(NormItems(Solid(items)))
  {
    forall k | 0 <= k < |items| ensures NormItems(items)[k] == Norm(items[k]) {
      NormItemsAt(items, k);
      NormKeepsDefined(items[k]);
    }
    if NormItems(items) == [Undefined] {
      NormKeepsDefined(items[0]);
      assert items == [Undefined];
    }
  }

  /** `SameContent` of the fields, said with normal forms. */
  ghost predicate Agree(fs: seq<Field>, gs: seq<Field>) {
    && (forall key :: Has(fs, key) <==> Has(gs, key))
    && (forall i, j :: 0 <= i < |fs| && 0 <= j < |gs| && fs[i].key == gs[j].key && IsDefined(fs[i]) && IsDefined(gs[j])
                       ==> Norm(fs[i].value) == Norm(gs[j].value))
  }

  lemma AgreeGivesMembers(a: Value, b: Value, f: Field)
    requires a.Obj? && b.Obj? && Agree(a.fields, b.fields) && f in ObjectOf(a)
    ensures f in ObjectOf(b)
  {
    ObjectMembers(a, f);
    ObjectMembers(b, f);
    var i :| 0 <= i < |a.fields| && IsDefined(a.fields[i]) && f == Field(a.fields[i].key, Norm(a.fields[i].value));
    hide Norm, ObjectOf;
    assert Has(a.fields, f.key);
    assert Has(b.fields, f.key);
    var j :| 0 <= j < |b.fields| && b.fields[j].key == f.key && IsDefined(b.fields[j]);
    assert Norm(a.fields[i].value) == Norm(b.fields[j].value);
  }

  lemma MembersGiveKeys(a: Value, b: Value, key: Text)
    requires a.Obj? && b.Obj? && ObjectOf(a) == ObjectOf(b) && Has(a.fields, key)
    ensures Has(b.fields, key)
  {
    var i :| 0 <= i < |a.fields| && a.fields[i].key == key && IsDefined(a.fields[i]);
    var f := Field(key, Norm(a.fields[i].value));
    ObjectMembers(a, f);
    ObjectMembers(b, f);
    hide Norm, ObjectOf;
  }

  lemma MembersGiveValues(a: Value, b: Value, i: nat, j: nat)
    requires a.Obj? && b.Obj? && ObjectOf(a) == ObjectOf(b) && DistinctKeys(b.fields)
    requires i < |a.fields| && j < |b.fields|
    requires a.fields[i].key == b.fields[j].key && IsDefined(a.fields[i]) && IsDefined(b.fields[j])
    ensures Norm(a.fields[i].value) == Norm(b.fields[j].value)
  {
    var key := a.fields[i].key;
    var f, g := Field(key, Norm(a.fields[i].value)), Field(key, Norm(b.fields[j].value));
    ObjectMembers(a, f);
    ObjectMembers(b, g);
    NormalObject(b);
    hide Norm, ObjectOf, KeyBefore, Shown;
    var r := ObjectOf(b);
    var k :| 0 <= k < |r| && r[k] == f;
    var l :| 0 <= l < |r| && r[l] == g;
  }

  lemma AgreeIffSameObject(a: Value, b: Value)
    requires a.Obj? && b.Obj? && DistinctKeys(a.fields) && DistinctKeys(b.fields)
    ensures Agree(a.fields, b.fields) <==> ObjectOf(a) == ObjectOf(b)
  {
    hide Norm, ObjectOf, Has;
    if Agree(a.fields, b.fields) {
      AgreeIsSymmetric(a.fields, b.fields);
      forall f ensures f in ObjectOf(a) <==> f in ObjectOf(b) {
        if f in ObjectOf(a) {
          AgreeGivesMembers(a, b, f);
        } else if f in ObjectOf(b) {
          AgreeGivesMembers(b, a, f);
        }
      }
      ObjectsAgree(a, b);
    }
    if ObjectOf(a) == ObjectOf(b) {
      forall key ensures Has(a.fields, key) <==> Has(b.fields, key) {
        if Has(a.fields, key) {
          MembersGiveKeys(a, b, key);
        } else if Has(b.fields, key) {
          MembersGiveKeys(b, a, key);
        }
      }
      forall i, j | 0 <= i < |a.fields| && 0 <= j < |b.fields| && a.fields[i].key == b.fields[j].key
                    && IsDefined(a.fields[i]) && IsDefined(b.fields[j])
        ensures Norm(a.fields[i].value) == Norm(b.fields[j].value)
      {
        MembersGiveValues(a, b, i, j);
      }
    }
  }

  lemma AgreeIsSymmetric(fs: seq<Field>, gs: seq<Field>)
    requires Agree(fs, gs)
    ensures Agree(gs, fs)
  {
    hide Norm;
  }

  lemma {:induction false} ObjectsSame(a: Value, b: Value)
    requires Valid(a) && Valid(b) && a.Obj? && b.Obj?
    ensures Norm(a) == Norm(b) <==> SameContent(a, b)
    decreases a, 0
  {
    AgreeIffSameObject(a, b);
    forall i, j | 0 <= i < |a.fields| && 0 <= j < |b.fields|
      ensures Norm(a.fields[i].value) == Norm(b.fields[j].value) <==> SameContent(a.fields[i].value, b.fields[j].value)
    {
      NormIffSame(a.fields[i].value, b.fields[j].value);
    }
    hide Valid, Has, DistinctKeys;
  }

  // ------------------------------------------------------------- main results

  /** The canonical text is unambiguous and canonical: two values print the same
      exactly when they have the same content. */
  lemma SameTextIffSameContent(a: Value, b: Value)
    requires Valid(a) && Valid(b)
    ensures Print(a) == Print(b) <==> SameContent(a, b)
  {
    hide *;
    NormIffSame(a, b);
    PrintOfNorm(a);
    PrintOfNorm(b);
    ParseWhole(a);
    ParseWhole(b);
  }

  lemma ParseWhole(v: Value)
    requires Valid(v)
    ensures ParseValue(Print(v)) == Done(Norm(v), [])
  {
    ParsePrinted(v, []);
    assert Print(v) + [] == Print(v);
  }

  /** Values without `undefined` in arrays and without non-finite numbers. */
  ghost predicate Plain(v: Value) {
    match v
    case NonFinite => false
    case Arr(items) => forall i :: 0 <= i < |items| ==> items[i] != Undefined && Plain(items[i])
    case Obj(fields) => forall i :: 0 <= i < |fields| ==> Plain(fields[i].value)
    case _ => true
  }

  /** Among plain values only the order of keys and undefined fields are forgotten:
      arrays of different length or with a differing element never print alike. */
  lemma PlainArraysAreFaithful(xs: seq<Value>, ys: seq<Value>)
    requires Valid(Arr(xs)) && Valid(Arr(ys)) && Plain(Arr(xs)) && Plain(Arr(ys)) && Print(Arr(xs)) == Print(Arr(ys))
    ensures |xs| == |ys| && forall i :: 0 <= i < |xs| ==> Print(xs[i]) == Print(ys[i])
  {
    SameTextIffSameContent(Arr(xs), Arr(ys));
    assert Solid(xs) == xs && Solid(ys) == ys;
    forall i | 0 <= i < |xs| ensures Print(xs[i]) == Print(ys[i]) {
      assert SameContent(xs[i], ys[i]);
      SameTextIffSameContent(xs[i], ys[i]);
    }
  }

  /** Why `undefined` inside an array must be excluded from that. */
  lemma UndefinedItemIsLost()
    ensures Print(Arr([Undefined])) == Print(Arr([]))
  {
    assert PrintItems([Undefined]) == Print(Undefined);
  }

  /** Code-unit order: the first difference decides, and a proper prefix comes first. */
  ghost predicate ComesFirst(a: Text, b: Text) {
    exists k: nat :: && k <= |a| && k < |b| && a[..k] == b[..k] && (k == |a| || a[k] < b[k])
  }

  lemma {:induction false} TextLessComesFirst(a: Text, b: Text)
    requires TextLess(a, b)
    ensures ComesFirst(a, b)
  {
    if |a| == 0 {
      assert a[..0] == b[..0];
    } else if a[0] < b[0] {
      assert a[..0] == b[..0];
    } else {
      TextLessComesFirst(a[1..], b[1..]);
      var k: nat :| && k <= |a[1..]| && k < |b[1..]| && a[1..][..k] == b[1..][..k]
                    && (k == |a[1..]| || a[1..][k] < b[1..][k]);
      assert a[..k + 1] == [a[0]] + a[1..][..k] && b[..k + 1] == [b[0]] + b[1..][..k];
    }
  }

  /** An object is printed with its keys in code-unit order, each defined field once. */
  lemma KeysRise(fields: seq<Field>)
    requires DistinctKeys(fields)
    ensures var shown := Shown(fields);
            && (forall i, j :: 0 <= i < j < |shown| ==> ComesFirst(shown[i].key, shown[j].key))
            && (forall f :: f in shown <==> f in fields && f.value != Undefined)
  {
    ShownIsSorted(fields);
    var shown := Shown(fields);
    forall i, j | 0 <= i < j < |shown| ensures ComesFirst(shown[i].key, shown[j].key) {
      assert !KeyBefore(shown[j], shown[i]);
      TextLessTrichotomy(shown[i].key, shown[j].key);
      TextLessComesFirst(shown[i].key, shown[j].key);
    }
  }

  /** A code unit stands for itself, or behind a backslash as a letter or as a number; and
      two surrogates stand for themselves exactly in their order. */
  lemma EscapesByKind(a: Unit, b: Unit, rest: Text)
    ensures |EscapeUnit(a)| == if a in {8, 9, 10, 12, 13, 34, 92} then 2
                               else if a < 0x20 || 0xD800 <= a <= 0xDFFF then 6 else 1
    ensures |EscapeUnit(a)| == 1 ==> EscapeUnit(a) == [a]
    ensures |EscapeUnit(a)| > 1 ==> EscapeUnit(a)[0] == 92 && (EscapeUnit(a)[1] == 117 <==> |EscapeUnit(a)| == 6)
    ensures QuoteBody([a, b] + rest) == if 0xD800 <= a <= 0xDBFF && 0xDC00 <= b <= 0xDFFF then [a, b] + QuoteBody(rest)
                                        else EscapeUnit(a) + QuoteBody([b] + rest)
  {
    assert ([a, b] + rest)[..2] == [a, b] && ([a, b] + rest)[2..] == rest && ([a, b] + rest)[1..] == [b] + rest;
    hide HexDigit;
  }

  /** How strings are quoted: seven characters by a letter, other control characters and
      lone surrogates by four lower-case hexadecimal digits, everything else as it is. */
  lemma KnownQuotes()
    ensures Quote([]) == [34, 34]
    ensures Quote([8, 9]) == [34, 92, 98, 92, 116, 34]
    ensures Quote([10, 12]) == [34, 92, 110, 92, 102, 34]
    ensures Quote([13, 34, 92]) == [34, 92, 114, 92, 34, 92, 92, 34]
    ensures Quote([0x1B]) == [34, 92, 117, 48, 48, 49, 98, 34]
    ensures Quote([0xD8FA]) == [34, 92, 117, 100, 56, 102, 97, 34]
    ensures Quote([0xDC00]) == [34, 92, 117, 100, 99, 48, 48, 34]
    ensures Quote([0xD800, 0xDC00]) == [34, 0xD800, 0xDC00, 34]
    ensures Quote([0x20, 0x7F, 0xE000]) == [34, 0x20, 0x7F, 0xE000, 34]
  {
    KnownEscapes();
    QuoteTwo(8, 9);
    QuoteTwo(10, 12);
    QuoteOne(0x1B);
    QuoteOne(0xD8FA);
    QuoteOne(0xDC00);
    QuotePair(0xD800, 0xDC00);
    QuoteThree(13, 34, 92);
    QuoteThree(0x20, 0x7F, 0xE000);
    hide EscapeUnit, QuoteBody;
    assert Quote([]) == [34, 34] by {
      QuoteNone();
    }
  }

  lemma KnownEscapes()
    ensures EscapeUnit(8) == [92, 98] && EscapeUnit(9) == [92, 116] && EscapeUnit(10) == [92, 110]
    ensures EscapeUnit(12) == [92, 102] && EscapeUnit(13) == [92, 114] && EscapeUnit(34) == [92, 34]
    ensures EscapeUnit(92) == [92, 92] && EscapeUnit(0x1B) == [92, 117, 48, 48, 49, 98]
    ensures EscapeUnit(0xD8FA) == [92, 117, 100, 56, 102, 97] && EscapeUnit(0xDC00) == [92, 117, 100, 99, 48, 48]
    ensures EscapeUnit(0x20) == [0x20] && EscapeUnit(0x7F) == [0x7F] && EscapeUnit(0xE000) == [0xE000]
  {
  }

  lemma QuoteNone()
    ensures Quote([]) == [34, 34]
  {
  }

  lemma QuotePair(a: Unit, b: Unit)
    requires IsLead(a) && IsTrail(b)
    ensures Quote([a, b]) == [34, a, b, 34]
  {
    assert [a, b][2..] == [] && [a, b][..2] == [a, b];
    assert QuoteBody([a, b]) == [a, b] + QuoteBody([]);
  }

  lemma QuoteOne(a: Unit)
    ensures Quote([a]) == [34] + EscapeUnit(a) + [34]
  {
    assert [a][1..] == [];
    assert QuoteBody([a]) == EscapeUnit(a) + QuoteBody([]);
  }

  lemma QuoteTwo(a: Unit, b: Unit)
    requires !IsLead(a)
    ensures Quote([a, b]) == [34] + EscapeUnit(a) + EscapeUnit(b) + [34]
  {
    QuoteOne(b);
    assert [a, b][1..] == [b] && [b][1..] == [];
    assert QuoteBody([b]) == EscapeUnit(b) + QuoteBody([]);
  }

  lemma QuoteThree(a: Unit, b: Unit, c: Unit)
    requires !IsLead(a) && !IsLead(b)
    ensures Quote([a, b, c]) == [34] + EscapeUnit(a) + EscapeUnit(b) + EscapeUnit(c) + [34]
  {
    assert [a, b, c][1..] == [b, c] && [b, c][1..] == [c] && [c][1..] == [];
    assert QuoteBody([c]) == EscapeUnit(c) + QuoteBody([]);
    assert QuoteBody([b, c]) == EscapeUnit(b) + QuoteBody([c]);
  }

  /** An object with an array, its keys out of order: `{"a":[null,true],"b":"x"}`. */
  lemma KnownText()
    ensures Print(Obj([Field([98], Str([120])), Field([97], Arr([NonFinite, Bool(true)])), Field([99], Undefined)]))
            == [123, 34, 97, 34, 58, 91, 110, 117, 108, 108, 44, 116, 114, 117, 101, 93, 44,
                34, 98, 34, 58, 34, 120, 34, 125]
  {
    hide Shown, Quote, PrintFields;
    var a, b, c := Field([97], Arr([NonFinite, Bool(true)])), Field([98], Str([120])), Field([99], Undefined);
    var v := Obj([b, a, c]);
    ShownKnown(a, b, c);
    PrintObject(v);
    PrintPair(v, a, b);
    PrintItemPair(NonFinite, Bool(true));
    PlainQuote(97);
    PlainQuote(98);
    PlainQuote(120);
    assert Print(b.value) == [34, 120, 34];
    hide Print;
    assert [91] + ([110, 117, 108, 108] + [44] + [116, 114, 117, 101]) + [93]
        == [91, 110, 117, 108, 108, 44, 116, 114, 117, 101, 93];
  }

  lemma PrintObject(v: Value)
    requires v.Obj?
    ensures Print(v) == [123] + PrintFields(v, Shown(v.fields)) + [125]
  {
  }

  lemma PrintItemPair(x: Value, y: Value)
    ensures Print(Arr([x, y])) == [91] + (Print(x) + [44] + Print(y)) + [93]
    ensures Print(NonFinite) == [110, 117, 108, 108] && Print(Bool(true)) == [116, 114, 117, 101]
  {
    assert [x, y][1..] == [y];
    assert PrintItems([y]) == Print(y);
  }

  lemma PlainQuote(a: Unit)
    requires 93 <= a < 128
    ensures Quote([a]) == [34, a, 34]
  {
    QuoteOne(a);
  }

  lemma ShownKnown(a: Field, b: Field, c: Field)
    requires a.key == [97] && b.key == [98] && IsDefined(a) && IsDefined(b) && !IsDefined(c)
    ensures Shown([b, a, c]) == [a, b]
  {
    assert [b, a, c][1..] == [a, c] && [a, c][1..] == [c] && [c][1..] == [];
    assert Filter([c], IsDefined) == [] && Filter([a, c], IsDefined) == [a] && Filter([b, a, c], IsDefined) == [b, a];
    SortTwo(b, a, KeyBefore);
    assert TextLess([97], [98]);
  }

  lemma PrintPair(v: Value, a: Field, b: Field)
    requires v.Obj? && a in v.fields && b in v.fields
    ensures PrintFields(v, [a, b])
            == Quote(a.key) + [58] + Print(a.value) + [44] + (Quote(b.key) + [58] + Print(b.value))
  {
    assert [a, b][1..] == [b];
    hide Print, Quote;
  }
}
