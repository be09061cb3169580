/** The canonical JSON text that signatures and content ids are computed over, and
    the values it denotes. */
module CanonicalJson {
  import opened Ordering

  /** A UTF-16 code unit; texts are JavaScript strings. */
  type Unit = u: nat | u < 0x10000
  type Text = seq<Unit>

  /** `Number` holds a finite number by the token that renders it; `NonFinite` is an
      infinity or not-a-number. */
  datatype Value =
    | Null
    | Undefined
    | Bool(b: bool)
    | Number(token: Text)
    | NonFinite
    | Str(s: Text)
    | Arr(items: seq<Value>)
    | Obj(fields: seq<Field>)

  datatype Field = Field(key: Text, value: Value)

  const QUOTE: Unit := 34
  const COMMA: Unit := 44
  const COLON: Unit := 58
  const LBRACKET: Unit := 91
  const BACKSLASH: Unit := 92
  const RBRACKET: Unit := 93
  const LOWER_U: Unit := 117
  const LBRACE: Unit := 123
  const RBRACE: Unit := 125
  const NULL_TEXT: Text := [110, 117, 108, 108]
  const TRUE_TEXT: Text := [116, 114, 117, 101]
  const FALSE_TEXT: Text := [102, 97, 108, 115, 101]

  // ----------------------------------------------------------------- strings

  predicate IsLead(u: Unit) {
    0xD800 <= u < 0xDC00
  }

  predicate IsTrail(u: Unit) {
    0xDC00 <= u < 0xE000
  }

  function HexDigit(d: nat): Unit
    requires d < 16
  {
    if d < 10 then 48 + d else 87 + d
  }

  /** The letter of a two-character escape, or 0. */
  function ShortEscape(u: Unit): Unit {
    match u
    case 8 => 98
    case 9 => 116
    case 10 => 110
    case 12 => 102
    case 13 => 114
    case 34 => 34
    case 92 => 92
    case _ => 0
  }

  function EscapeUnit(u: Unit): Text {
    if ShortEscape(u) != 0 then [BACKSLASH, ShortEscape(u)]
    else if u < 0x20 || IsLead(u) || IsTrail(u) then
      [BACKSLASH, LOWER_U, HexDigit(u / 0x1000), HexDigit(u / 0x100 % 16), HexDigit(u / 0x10 % 16), HexDigit(u % 16)]
    else [u]
  }

  /** Surrogate pairs stand as they are; lone surrogates are escaped. */
  function QuoteBody(s: Text): Text {
    if |s| == 0 then []
    else if |s| > 1 && IsLead(s[0]) && IsTrail(s[1]) then s[..2] + QuoteBody(s[2..])
    else EscapeUnit(s[0]) + QuoteBody(s[1..])
  }

  function Quote(s: Text): Text {
    [QUOTE] + QuoteBody(s) + [QUOTE]
  }

  // ----------------------------------------------------------------- printer

  predicate TextLess(a: Text, b: Text) {
    |b| > 0 && (|a| == 0 || a[0] < b[0] || (a[0] == b[0] && TextLess(a[1..], b[1..])))
  }

  predicate KeyBefore(a: Field, b: Field) {
    TextLess(a.key, b.key)
  }

  predicate IsDefined(f: Field) {
    f.value != Undefined
  }

  /** The fields that are printed, in printing order. */
  function Shown(fields: seq<Field>): (r: seq<Field>)
    ensures forall f :: f in r <==> f in fields && IsDefined(f)
  {
    FilterMembers(fields, IsDefined);
    SortContents(Filter(fields, IsDefined), KeyBefore);
    Sort(Filter(fields, IsDefined), KeyBefore)
  }

  lemma FieldIsSmaller(v: Value, f: Field)
    requires v.Obj? && f in v.fields
    ensures f.value < v
  {
    var i :| 0 <= i < |v.fields| && v.fields[i] == f;
    assert v.fields[i].value < v;
  }

  /** Joining renders `undefined` as nothing at all. */
  function Print(v: Value): Text
    decreases v, 1, 0
  {
    match v
    case Null => NULL_TEXT
    case NonFinite => NULL_TEXT
    case Undefined => []
    case Bool(b) => if b then TRUE_TEXT else FALSE_TEXT
    case Number(token) => token
    case Str(s) => Quote(s)
    case Arr(items) => [LBRACKET] + PrintItems(items) + [RBRACKET]
    case Obj(fields) => [LBRACE] + PrintFields(v, Shown(fields)) + [RBRACE]
  }

  function PrintItems(items: seq<Value>): Text
    decreases items, 0, 0
  {
    if |items| == 0 then []
    else if |items| == 1 then Print(items[0])
    else Print(items[0]) + [COMMA] + PrintItems(items[1..])
  }

  function PrintFields(parent: Value, shown: seq<Field>): Text
    requires parent.Obj? && forall f :: f in shown ==> f in parent.fields
    decreases parent, 0, |shown|
  {
    if |shown| == 0 then []
    else
      assert shown[0] in parent.fields;
      FieldIsSmaller(parent, shown[0]);
      var first := Quote(shown[0].key) + [COLON] + Print(shown[0].value);
      if |shown| == 1 then first else first + [COMMA] + PrintFields(parent, shown[1..])
  }

  // ------------------------------------------------------------ normal forms

  /** Fields sorted and without `undefined`, no non-finite numbers, and the array
      that prints like the empty one replaced by it. */
  function Norm(v: Value): Value
    decreases v, 1, 0
  {
    match v
    case NonFinite => Null
    case Arr(items) => NormArray(NormItems(items))
    case Obj(fields) => Obj(NormFields(v, Shown(fields)))
    case _ => v
  }

  function NormArray(items: seq<Value>): Value {
    Arr(if items == [Undefined] then [] else items)
  }

  function NormItems(items: seq<Value>): (r: seq<Value>)
    ensures |r| == |items|
    decreases items, 0, 0
  {
    if |items| == 0 then [] else [Norm(items[0])] + NormItems(items[1..])
  }

  function NormFields(parent: Value, shown: seq<Field>): (r: seq<Field>)
    requires parent.Obj? && forall f :: f in shown ==> f in parent.fields
    ensures |r| == |shown|
    decreases parent, 0, |shown|
  {
    if |shown| == 0 then []
    else
      assert shown[0] in parent.fields;
      FieldIsSmaller(parent, shown[0]);
      [Field(shown[0].key, Norm(shown[0].value))] + NormFields(parent, shown[1..])
  }

  // ------------------------------------------------------------------ parser

  datatype Parsed<T> = Failed | Done(value: T, rest: Text)

  predicate IsDelimiter(u: Unit) {
    u == COMMA || u == RBRACKET || u == RBRACE
  }

  predicate IsDigit(u: Unit) {
    48 <= u <= 57
  }

  /** Digits, signs, the point and the exponent letters. */
  predicate IsNumberUnit(u: Unit) {
    IsDigit(u) || u == 43 || u == 45 || u == 46 || u == 69 || u == 101
  }

  predicate IsNumberStart(u: Unit) {
    IsDigit(u) || u == 45
  }

  function TakeNumber(t: Text): (r: Text)
    ensures r <= t
    ensures |t| > 0 && IsNumberUnit(t[0]) ==> |r| > 0
  {
    if |t| == 0 || !IsNumberUnit(t[0]) then [] else [t[0]] + TakeNumber(t[1..])
  }

  function HexValue(u: Unit): int {
    if IsDigit(u) then u - 48 else if 97 <= u <= 102 then u - 87 else -1
  }

  function Unescape(letter: Unit): int {
    match letter
    case 98 => 8
    case 116 => 9
    case 110 => 10
    case 102 => 12
    case 114 => 13
    case 34 => 34
    case 92 => 92
    case _ => -1
  }

  function Prepend(u: Unit, p: Parsed<Text>): Parsed<Text> {
    match p
    case Failed => Failed
    case Done(s, rest) => Done([u] + s, rest)
  }

  /** The string whose closing quote comes next, unescaped. */
  function ParseBody(t: Text): (p: Parsed<Text>)
    ensures p.Done? ==> |p.rest| < |t|
    decreases |t|
  {
    if |t| == 0 then Failed
    else if t[0] == QUOTE then Done([], t[1..])
    else if t[0] != BACKSLASH then Prepend(t[0], ParseBody(t[1..]))
    else if |t| >= 2 && Unescape(t[1]) >= 0 then Prepend(Unescape(t[1]), ParseBody(t[2..]))
    else if |t| >= 6 && t[1] == LOWER_U
            && HexValue(t[2]) >= 0 && HexValue(t[3]) >= 0 && HexValue(t[4]) >= 0 && HexValue(t[5]) >= 0
    then Prepend(HexValue(t[2]) * 0x1000 + HexValue(t[3]) * 0x100 + HexValue(t[4]) * 0x10 + HexValue(t[5]),
                 ParseBody(t[6..]))
    else Failed
  }

  function ParseValue(t: Text): (p: Parsed<Value>)
    ensures p.Done? ==> |p.rest| <= |t|
    decreases |t|, 0
  {
    if |t| == 0 || IsDelimiter(t[0]) then Done(Undefined, t)
    else if NULL_TEXT <= t then Done(Null, t[4..])
    else if TRUE_TEXT <= t then Done(Bool(true), t[4..])
    else if FALSE_TEXT <= t then Done(Bool(false), t[5..])
    else if t[0] == QUOTE then
      match ParseBody(t[1..])
      case Failed => Failed
      case Done(s, rest) => Done(Str(s), rest)
    else if t[0] == LBRACKET then
      match ParseItems(t[1..])
      case Failed => Failed
      case Done(items, rest) => Done(NormArray(items), rest)
    else if t[0] == LBRACE then
      if |t| > 1 && t[1] == RBRACE then Done(Obj([]), t[2..]) else
        match ParseFields(t[1..])
        case Failed => Failed
        case Done(fields, rest) => Done(Obj(fields), rest)
    else if IsNumberStart(t[0]) then
      var token := TakeNumber(t);
      Done(Number(token), t[|token|..])
    else Failed
  }

  function ParseItems(t: Text): (p: Parsed<seq<Value>>)
    ensures p.Done? ==> |p.rest| <= |t|
    decreases |t|, 1
  {
    match ParseValue(t)
    case Failed => Failed
    case Done(v, rest) =>
      if |rest| > 0 && rest[0] == RBRACKET then Done([v], rest[1..])
      else if |rest| > 0 && rest[0] == COMMA then
        match ParseItems(rest[1..])
        case Failed => Failed
        case Done(more, end) => Done([v] + more, end)
      else Failed
  }

  function ParseFields(t: Text): (p: Parsed<seq<Field>>)
    ensures p.Done? ==> |p.rest| <= |t|
    decreases |t|, 1
  {
    if |t| == 0 || t[0] != QUOTE then Failed else
      match ParseBody(t[1..])
      case Failed => Failed
      case Done(key, afterKey) =>
        if |afterKey| == 0 || afterKey[0] != COLON then Failed else
          match ParseValue(afterKey[1..])
          case Failed => Failed
          case Done(v, rest) =>
            if |rest| > 0 && rest[0] == RBRACE then Done([Field(key, v)], rest[1..])
            else if |rest| > 0 && rest[0] == COMMA then
              match ParseFields(rest[1..])
              case Failed => Failed
              case Done(more, end) => Done([Field(key, v)] + more, end)
            else Failed
  }

  // ---------------------------------------------------- undoing the printer

  predicate ValidToken(token: Text) {
    |token| > 0 && IsNumberStart(token[0]) && forall k :: 0 <= k < |token| ==> IsNumberUnit(token[k])
  }

  ghost predicate DistinctKeys(fields: seq<Field>) {
    forall i, j :: 0 <= i < j < |fields| ==> fields[i].key != fields[j].key
  }

  /** What a JavaScript value guarantees: no object has a key twice, and numbers are
      rendered without delimiters. */
  ghost predicate Valid(v: Value) {
    match v
    case Number(token) => ValidToken(token)
    case Arr(items) => forall i :: 0 <= i < |items| ==> Valid(items[i])
    case Obj(fields) => DistinctKeys(fields) && forall i :: 0 <= i < |fields| ==> Valid(fields[i].value)
    case _ => true
  }

  /** What may follow a printed value inside a text. */
  predicate Delimited(rest: Text) {
    |rest| == 0 || IsDelimiter(rest[0])
  }

  lemma ParseEscaped(u: Unit, t: Text)
    ensures ParseBody(EscapeUnit(u) + t) == Prepend(u, ParseBody(t))
  {
    if ShortEscape(u) != 0 {
      ParseShort(u, t);
    } else if u < 0x20 || IsLead(u) || IsTrail(u) {
      HexRoundTrip(u);
      ParseHex(HexDigit(u / 0x1000), HexDigit(u / 0x100 % 16), HexDigit(u / 0x10 % 16), HexDigit(u % 16), u, t);
    } else {
      assert ([u] + t)[1..] == t;
    }
  }

  lemma ParseShort(u: Unit, t: Text)
    requires ShortEscape(u) != 0
    ensures ParseBody([BACKSLASH, ShortEscape(u)] + t) == Prepend(u, ParseBody(t))
  {
    assert ([BACKSLASH, ShortEscape(u)] + t)[2..] == t;
  }

  lemma ParseHex(a: Unit, b: Unit, c: Unit, d: Unit, u: Unit, t: Text)
    requires HexValue(a) >= 0 && HexValue(b) >= 0 && HexValue(c) >= 0 && HexValue(d) >= 0
    requires HexValue(a) * 0x1000 + HexValue(b) * 0x100 + HexValue(c) * 0x10 + HexValue(d) == u
    ensures ParseBody([BACKSLASH, LOWER_U, a, b, c, d] + t) == Prepend(u, ParseBody(t))
  {
    hide HexValue;
    assert ([BACKSLASH, LOWER_U, a, b, c, d] + t)[6..] == t;
  }

  lemma HexRoundTrip(u: Unit)
    ensures HexValue(HexDigit(u / 0x1000)) * 0x1000 + HexValue(HexDigit(u / 0x100 % 16)) * 0x100
            + HexValue(HexDigit(u / 0x10 % 16)) * 0x10 + HexValue(HexDigit(u % 16)) == u
    ensures HexValue(HexDigit(u / 0x1000)) >= 0 && HexValue(HexDigit(u / 0x100 % 16)) >= 0
    ensures HexValue(HexDigit(u / 0x10 % 16)) >= 0 && HexValue(HexDigit(u % 16)) >= 0
  {
    HexOne(u / 0x1000);
    HexOne(u / 0x100 % 16);
    HexOne(u / 0x10 % 16);
    HexOne(u % 16);
    hide HexValue, HexDigit;
    Nibbles(u);
  }

  lemma Nibbles(u: nat)
    ensures u / 0x1000 * 0x1000 + u / 0x100 % 16 * 0x100 + u / 0x10 % 16 * 0x10 + u % 16 == u
  {
    var a, b, c := u / 0x10, u / 0x100, u / 0x1000;
    assert a == b * 16 + a % 16;
    assert b == c * 16 + b % 16;
  }

  lemma HexOne(d: nat)
    requires d < 16
    ensures HexValue(HexDigit(d)) == d
  {
  }

  /** Unquoting undoes quoting, whatever follows the closing quote. */
  lemma {:induction false} ParseQuoted(s: Text, rest: Text)
    ensures ParseBody(QuoteBody(s) + [QUOTE] + rest) == Done(s, rest)
  {
    hide EscapeUnit, ParseBody;
    if |s| == 0 {
      ParseEnd(rest);
      assert QuoteBody(s) + [QUOTE] + rest == [QUOTE] + rest;
    } else if |s| > 1 && IsLead(s[0]) && IsTrail(s[1]) {
      ParseQuoted(s[2..], rest);
      ParsePair(s[0], s[1], QuoteBody(s[2..]) + [QUOTE] + rest);
      assert QuoteBody(s) + [QUOTE] + rest == [s[0], s[1]] + (QuoteBody(s[2..]) + [QUOTE] + rest);
      assert [s[0]] + ([s[1]] + s[2..]) == s;
    } else {
      ParseQuoted(s[1..], rest);
      ParseEscaped(s[0], QuoteBody(s[1..]) + [QUOTE] + rest);
      assert QuoteBody(s) + [QUOTE] + rest == EscapeUnit(s[0]) + (QuoteBody(s[1..]) + [QUOTE] + rest);
      assert [s[0]] + s[1..] == s;
    }
  }

  lemma ParseEnd(rest: Text)
    ensures ParseBody([QUOTE] + rest) == Done([], rest)
  {
    assert ([QUOTE] + rest)[1..] == rest;
  }

  lemma ParsePair(lead: Unit, trail: Unit, t: Text)
    requires IsLead(lead) && IsTrail(trail)
    ensures ParseBody([lead, trail] + t) == Prepend(lead, Prepend(trail, ParseBody(t)))
  {
    assert ([lead, trail] + t)[1..] == [trail] + t && ([trail] + t)[1..] == t;
  }

  lemma {:induction false} TakeToken(token: Text, rest: Text)
    requires (forall k :: 0 <= k < |token| ==> IsNumberUnit(token[k])) && Delimited(rest)
    ensures TakeNumber(token + rest) == token
  {
    if |token| == 0 {
      assert token + rest == rest;
    } else {
      assert (token + rest)[1..] == token[1..] + rest;
      TakeToken(token[1..], rest);
    }
  }

  lemma LiteralStarts(t: Text)
    requires |t| > 0
    ensures NULL_TEXT <= t ==> t[0] == 110
    ensures TRUE_TEXT <= t ==> t[0] == 116
    ensures FALSE_TEXT <= t ==> t[0] == 102
  {
    if NULL_TEXT <= t {
      assert t[0] == NULL_TEXT[0];
    }
    if TRUE_TEXT <= t {
      assert t[0] == TRUE_TEXT[0];
    }
    if FALSE_TEXT <= t {
      assert t[0] == FALSE_TEXT[0];
    }
  }

  lemma ItemsLast(t: Text, v: Value, rest: Text)
    requires ParseValue(t) == Done(v, [RBRACKET] + rest)
    ensures ParseItems(t) == Done([v], rest)
  {
    hide ParseValue;
    assert ([RBRACKET] + rest)[1..] == rest;
  }

  lemma ItemsMore(t: Text, v: Value, u: Text, more: seq<Value>, end: Text)
    requires ParseValue(t) == Done(v, [COMMA] + u) && ParseItems(u) == Done(more, end)
    ensures ParseItems(t) == Done([v] + more, end)
  {
    hide ParseValue;
    assert ([COMMA] + u)[1..] == u;
  }

  lemma {:induction false} ParsePrintedItems(items: seq<Value>, rest: Text)
    requires |items| > 0 && forall i :: 0 <= i < |items| ==> Valid(items[i])
    ensures ParseItems(PrintItems(items) + [RBRACKET] + rest) == Done(NormItems(items), rest)
    decreases items, 0, 0
  {
    hide *;
    PrintedItems(items);
    if |items| == 1 {
      ParsePrinted(items[0], [RBRACKET] + rest);
      ItemsLast(Print(items[0]) + ([RBRACKET] + rest), Norm(items[0]), rest);
      assert PrintItems(items) + [RBRACKET] + rest == Print(items[0]) + ([RBRACKET] + rest);
    } else {
      var u := PrintItems(items[1..]) + [RBRACKET] + rest;
      ParsePrinted(items[0], [COMMA] + u);
      ParsePrintedItems(items[1..], rest);
      ItemsMore(Print(items[0]) + ([COMMA] + u), Norm(items[0]), u, NormItems(items[1..]), rest);
      Regroup([], Print(items[0]), PrintItems(items[1..]), [RBRACKET], rest);
    }
  }

  lemma PrintedItems(items: seq<Value>)
    requires |items| > 0
    ensures NormItems(items) == [Norm(items[0])] + NormItems(items[1..])
    ensures |items| == 1 ==> NormItems(items) == [Norm(items[0])] && PrintItems(items) == Print(items[0])
    ensures |items| > 1 ==> PrintItems(items) == Print(items[0]) + [COMMA] + PrintItems(items[1..])
    ensures forall rest :: Delimited([RBRACKET] + rest) && Delimited([COMMA] + rest)
  {
    hide Print, Norm;
  }

  lemma Regroup(head: Text, first: Text, more: Text, close: Text, rest: Text)
    ensures head + first + [COMMA] + more + close + rest == head + (first + ([COMMA] + (more + close + rest)))
    ensures first + [COMMA] + more + close + rest == first + ([COMMA] + (more + close + rest))
  {
  }

  lemma FieldHead(key: Text, t: Text, v: Value, rest: Text)
    requires ParseValue(t) == Done(v, rest)
    ensures var text := Quote(key) + [COLON] + t;
            && |text| > 0 && text[0] == QUOTE && ParseBody(text[1..]).Done? && ParseBody(text[1..]).value == key
            && ParseBody(text[1..]).rest == [COLON] + t && ([COLON] + t)[1..] == t
  {
    hide ParseValue, ParseBody, QuoteBody;
    ParseQuoted(key, [COLON] + t);
    assert (Quote(key) + [COLON] + t)[1..] == QuoteBody(key) + [QUOTE] + ([COLON] + t);
  }

  lemma FieldsLast(key: Text, t: Text, v: Value, rest: Text)
    requires ParseValue(t) == Done(v, [RBRACE] + rest)
    ensures ParseFields(Quote(key) + [COLON] + t) == Done([Field(key, v)], rest)
  {
    FieldHead(key, t, v, [RBRACE] + rest);
    hide ParseValue, ParseBody, Quote;
    assert ([RBRACE] + rest)[1..] == rest;
  }

  lemma FieldsMore(key: Text, t: Text, v: Value, u: Text, more: seq<Field>, end: Text)
    requires ParseValue(t) == Done(v, [COMMA] + u) && ParseFields(u) == Done(more, end)
    ensures ParseFields(Quote(key) + [COLON] + t) == Done([Field(key, v)] + more, end)
  {
    FieldHead(key, t, v, [COMMA] + u);
    hide ParseValue, ParseBody, Quote;
    assert ([COMMA] + u)[1..] == u;
  }

  lemma {:induction false} ParsePrintedFields(parent: Value, shown: seq<Field>, rest: Text)
    requires parent.Obj? && |shown| > 0 && forall f :: f in shown ==> f in parent.fields && Valid(f.value)
    ensures ParseFields(PrintFields(parent, shown) + [RBRACE] + rest) == Done(NormFields(parent, shown), rest)
    decreases parent, 0, |shown|
  {
    var key, v := shown[0].key, shown[0].value;
    assert shown[0] in shown;
    FieldIsSmaller(parent, shown[0]);
    hide *;
    PrintedFields(parent, shown);
    if |shown| == 1 {
      ParsePrinted(v, [RBRACE] + rest);
      LastField(key, Print(v), Norm(v), rest);
    } else {
      var more := PrintFields(parent, shown[1..]);
      ParsePrinted(v, [COMMA] + (more + [RBRACE] + rest));
      ParsePrintedFields(parent, shown[1..], rest);
      MoreFields(key, Print(v), Norm(v), more, NormFields(parent, shown[1..]), rest);
    }
  }

  lemma LastField(key: Text, p: Text, v: Value, rest: Text)
    requires ParseValue(p + ([RBRACE] + rest)) == Done(v, [RBRACE] + rest)
    ensures ParseFields(Quote(key) + [COLON] + p + [RBRACE] + rest) == Done([Field(key, v)], rest)
  {
    hide *;
    FieldsLast(key, p + ([RBRACE] + rest), v, rest);
    assert Quote(key) + [COLON] + p + [RBRACE] + rest == Quote(key) + [COLON] + (p + ([RBRACE] + rest));
  }

  lemma MoreFields(key: Text, p: Text, v: Value, q: Text, more: seq<Field>, rest: Text)
    requires ParseValue(p + ([COMMA] + (q + [RBRACE] + rest))) == Done(v, [COMMA] + (q + [RBRACE] + rest))
    requires ParseFields(q + [RBRACE] + rest) == Done(more, rest)
    ensures ParseFields(Quote(key) + [COLON] + p + [COMMA] + q + [RBRACE] + rest) == Done([Field(key, v)] + more, rest)
  {
    hide *;
    FieldsMore(key, p + ([COMMA] + (q + [RBRACE] + rest)), v, q + [RBRACE] + rest, more, rest);
    Regroup(Quote(key) + [COLON], p, q, [RBRACE], rest);
  }

  lemma PrintedFields(parent: Value, shown: seq<Field>)
    requires parent.Obj? && |shown| > 0 && forall f :: f in shown ==> f in parent.fields
    ensures NormFields(parent, shown) == [Field(shown[0].key, Norm(shown[0].value))] + NormFields(parent, shown[1..])
    ensures |shown| == 1 ==> NormFields(parent, shown) == [Field(shown[0].key, Norm(shown[0].value))]
    ensures |shown| == 1 ==> PrintFields(parent, shown) == Quote(shown[0].key) + [COLON] + Print(shown[0].value)
    ensures |shown| > 1 ==> PrintFields(parent, shown)
                            == Quote(shown[0].key) + [COLON] + Print(shown[0].value) + [COMMA]
                              + PrintFields(parent, shown[1..])
    ensures forall rest :: Delimited([RBRACE] + rest) && Delimited([COMMA] + rest)
  {
    hide Quote, Print, Norm;
  }

  lemma ParseArray(t: Text, items: seq<Value>, rest: Text)
    requires ParseItems(t) == Done(items, rest)
    ensures ParseValue([LBRACKET] + t) == Done(NormArray(items), rest)
  {
    hide ParseItems, NormArray;
    assert ([LBRACKET] + t)[1..] == t;
    LiteralStarts([LBRACKET] + t);
  }

  lemma ParseObject(t: Text, fields: seq<Field>, rest: Text)
    requires |t| > 0 && if t[0] == RBRACE then fields == [] && rest == t[1..] else ParseFields(t) == Done(fields, rest)
    ensures ParseValue([LBRACE] + t) == Done(Obj(fields), rest)
  {
    hide ParseFields;
    assert ([LBRACE] + t)[1..] == t && ([LBRACE] + t)[2..] == t[1..];
    LiteralStarts([LBRACE] + t);
  }

  lemma ParseString(s: Text, rest: Text)
    ensures ParseValue(Quote(s) + rest) == Done(Str(s), rest)
  {
    hide ParseBody, QuoteBody, ParseItems, ParseFields, TakeNumber;
    var t := Quote(s) + rest;
    ParseQuoted(s, rest);
    assert t[1..] == QuoteBody(s) + [QUOTE] + rest;
    LiteralStarts(t);
  }

  lemma ParseNumber(token: Text, rest: Text)
    requires ValidToken(token) && Delimited(rest)
    ensures ParseValue(token + rest) == Done(Number(token), rest)
  {
    var t := token + rest;
    TakeToken(token, rest);
    assert t[0] == token[0] && t[|token|..] == rest;
    hide TakeNumber;
    LiteralStarts(t);
  }

  lemma ParseLiteral(v: Value, rest: Text)
    requires v == Null || v == NonFinite || v.Bool?
    ensures ParseValue(Print(v) + rest) == Done(Norm(v), rest)
  {
    var t := Print(v) + rest;
    LiteralStarts(t);
    assert t[|Print(v)|..] == rest;
  }

  /** The parser undoes the printer on every text that goes on with a delimiter, up
      to the normal form of the value. */
  lemma {:induction false} ParsePrinted(v: Value, rest: Text)
    requires Valid(v) && Delimited(rest)
    ensures ParseValue(Print(v) + rest) == Done(Norm(v), rest)
    decreases v, 1, 0
  {
    var t := Print(v) + rest;
    match v
    case Undefined =>
      assert t == rest;
    case Number(token) => ParseNumber(token, rest);
    case Str(s) => ParseString(s, rest);
    case Arr(items) =>
      hide ParseValue, ParseItems;
      var u := PrintItems(items) + [RBRACKET] + rest;
      assert t == [LBRACKET] + u;
      if |items| > 0 {
        ParsePrintedItems(items, rest);
        ParseArray(u, NormItems(items), rest);
      } else {
        EmptyItems(rest);
        assert u == [RBRACKET] + rest;
        ParseArray(u, [Undefined], rest);
      }
    case Obj(fields) =>
      hide ParseValue, ParseFields;
      var shown := Shown(fields);
      var u := PrintFields(v, shown) + [RBRACE] + rest;
      assert t == [LBRACE] + u;
      forall f | f in shown ensures f in fields && Valid(f.value) {
        var i :| 0 <= i < |fields| && fields[i] == f;
      }
      if |shown| > 0 {
        ParsePrintedFields(v, shown, rest);
      } else {
        assert u == [RBRACE] + rest && u[1..] == rest;
      }
      ParseObject(u, NormFields(v, shown), rest);
    case _ => ParseLiteral(v, rest);
  }

  lemma EmptyItems(rest: Text)
    ensures ParseItems([RBRACKET] + rest) == Done([Undefined], rest)
  {
    assert ([RBRACKET] + rest)[1..] == rest;
  }
}
