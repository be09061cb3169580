/** The base64url encoding of section 5 of RFC 4648 without padding, built as the
    program builds it: on top of the platform's padded base64. */
module Base64 {
  import opened Ordering

  type Byte = b: nat | b < 256
  type Sextet = b: nat | b < 64
  type Bytes = seq<Byte>

  datatype Decoded = Malformed | Plain(bytes: Bytes)

  // ---------------------------------------------------------------- alphabet

  function Letter(v: Sextet): char {
    if v < 26 then 'A' + v as char
    else if v < 52 then 'a' + (v - 26) as char
    else if v < 62 then '0' + (v - 52) as char
    else if v == 62 then '+' else '/'
  }

  function LetterValue(c: char): int {
    if 'A' <= c <= 'Z' then c as int - 'A' as int
    else if 'a' <= c <= 'z' then c as int - 'a' as int + 26
    else if '0' <= c <= '9' then c as int - '0' as int + 52
    else if c == '+' then 62 else if c == '/' then 63 else -1
  }

  lemma LetterRoundTrip(v: Sextet)
    ensures LetterValue(Letter(v)) == v
    ensures Letter(v) !in {'-', '_', '=', ' ', '\t', '\n', '\r', '\U{0C}'}
  {
  }

  // ------------------------------------------------------------- bits in groups

  /** Six bits at a time; the last group is filled up with zero bits. */
  function Sextets(bytes: Bytes): seq<Sextet> {
    if |bytes| == 0 then []
    else if |bytes| == 1 then [bytes[0] / 4, bytes[0] % 4 * 16]
    else if |bytes| == 2 then [bytes[0] / 4, bytes[0] % 4 * 16 + bytes[1] / 16, bytes[1] % 16 * 4]
    else [bytes[0] / 4, bytes[0] % 4 * 16 + bytes[1] / 16, bytes[1] % 16 * 4 + bytes[2] / 64, bytes[2] % 64]
         + Sextets(bytes[3..])
  }

  /** `high` shifted by one factor, and `low` by the other in the other direction. */
  function Join(high: nat, up: nat, low: nat, down: nat): Byte
    requires high < 64 && low < 64 && (up, down) in {(4, 16), (16, 4), (64, 1)} && high * up < 256
  {
    if up == 4 then high * 4 + low / 16 else if up == 16 then high * 16 + low / 4 else high * 64 + low
  }

  /** Eight bits at a time; bits left over are dropped. */
  function Octets(s: seq<Sextet>): Bytes {
    if |s| < 2 then []
    else if |s| == 2 then [Join(s[0], 4, s[1], 16)]
    else if |s| == 3 then [Join(s[0], 4, s[1], 16), Join(s[1] % 16, 16, s[2], 4)]
    else [Join(s[0], 4, s[1], 16), Join(s[1] % 16, 16, s[2], 4), Join(s[2] % 4, 64, s[3], 1)] + Octets(s[4..])
  }

  lemma {:induction false} OctetsOfSextets(bytes: Bytes)
    ensures Octets(Sextets(bytes)) == bytes
    ensures |Sextets(bytes)| == |bytes| / 3 * 4 + (if |bytes| % 3 == 0 then 0 else |bytes| % 3 + 1)
  {
    if |bytes| >= 3 {
      OctetsOfSextets(bytes[3..]);
      FirstGroup(bytes[0], bytes[1], bytes[2], bytes[3..]);
      assert bytes == [bytes[0], bytes[1], bytes[2]] + bytes[3..];
      hide Octets, Sextets;
    } else {
      ShortGroups(bytes);
    }
  }

  lemma FirstGroup(a: Byte, b: Byte, c: Byte, rest: Bytes)
    ensures Octets(Sextets([a, b, c] + rest)) == [a, b, c] + Octets(Sextets(rest))
    ensures |Sextets([a, b, c] + rest)| == |Sextets(rest)| + 4
  {
    var bytes := [a, b, c] + rest;
    assert bytes[3..] == rest;
    var s := Sextets(bytes);
    assert s[4..] == Sextets(rest);
    ThreeBytes(a, b, c);
  }

  lemma ShortGroups(bytes: Bytes)
    requires |bytes| < 3
    ensures Octets(Sextets(bytes)) == bytes && |Sextets(bytes)| == if |bytes| == 0 then 0 else |bytes| + 1
  {
  }

  lemma ThreeBytes(a: Byte, b: Byte, c: Byte)
    ensures a / 4 * 4 + (a % 4 * 16 + b / 16) / 16 == a
    ensures (a % 4 * 16 + b / 16) % 16 * 16 + (b % 16 * 4 + c / 64) / 4 == b
    ensures (b % 16 * 4 + c / 64) % 4 * 64 + c % 64 == c
  {
  }

  // ---------------------------------------------------- the platform's base64

  function Letters(s: seq<Sextet>): string {
    seq(|s|, i requires 0 <= i < |s| => Letter(s[i]))
  }

  function Equals(n: nat): string {
    seq(n, i => '=')
  }

  /** Standard base64 with padding. */
  function Btoa(bytes: Bytes): string {
    Letters(Sextets(bytes)) + Equals((3 - |bytes| % 3) % 3)
  }

  predicate NotSpace(c: char) {
    c !in {' ', '\t', '\n', '\r', '\U{0C}'}
  }

  function DropOneEquals(s: string): string {
    if |s| > 0 && s[|s| - 1] == '=' then s[..|s| - 1] else s
  }

  predicate AllLetters(s: string) {
    forall i :: 0 <= i < |s| ==> LetterValue(s[i]) >= 0
  }

  function LetterValues(s: string): seq<Sextet>
    requires AllLetters(s)
  {
    seq(|s|, i requires 0 <= i < |s| => LetterValue(s[i]))
  }

  /** The forgiving decoder: white space is skipped, padding is optional. */
  function Atob(text: string): Decoded {
    var dense := Filter(text, NotSpace);
    var s := if |dense| % 4 == 0 then DropOneEquals(DropOneEquals(dense)) else dense;
    if |s| % 4 == 1 || !AllLetters(s) then Malformed else Plain(Octets(LetterValues(s)))
  }

  // --------------------------------------------------------------- base64url

  function Replace(s: string, from: char, to: char): string {
    seq(|s|, i requires 0 <= i < |s| => if s[i] == from then to else s[i])
  }

  function StripEquals(s: string): string {
    if |s| > 0 && s[|s| - 1] == '=' then StripEquals(s[..|s| - 1]) else s
  }

  function Encode(bytes: Bytes): string {
    StripEquals(Replace(Replace(Btoa(bytes), '+', '-'), '/', '_'))
  }

  function Decode(text: string): Decoded {
    var b64 := Replace(Replace(text, '-', '+'), '_', '/');
    Atob(b64 + if |b64| % 4 == 0 then "" else Equals(4 - |b64| % 4))
  }

  function UrlLetter(v: Sextet): char {
    if v == 62 then '-' else if v == 63 then '_' else Letter(v)
  }

  function UrlLetters(s: seq<Sextet>): string {
    seq(|s|, i requires 0 <= i < |s| => UrlLetter(s[i]))
  }

  lemma {:induction false} StripKeeps(s: string, n: nat)
    requires |s| == 0 || s[|s| - 1] != '='
    ensures StripEquals(s + Equals(n)) == s
  {
    if n == 0 {
      assert s + Equals(0) == s;
    } else {
      assert (s + Equals(n))[..|s| + n - 1] == s + Equals(n - 1);
      StripKeeps(s, n - 1);
    }
  }

  lemma ReplaceLetters(s: seq<Sextet>, pad: nat)
    ensures Replace(Replace(Letters(s) + Equals(pad), '+', '-'), '/', '_') == UrlLetters(s) + Equals(pad)
  {
    var t := Letters(s) + Equals(pad);
    forall i | 0 <= i < |s|
      ensures (if (if t[i] == '+' then '-' else t[i]) == '/' then '_' else if t[i] == '+' then '-' else t[i])
          == UrlLetter(s[i])
    {
      LetterRoundTrip(s[i]);
    }
  }

  lemma CapitalsInOrder(v: nat)
    requires v < 26
    ensures "ABCDEFGHIJKLMNOPQRSTUVWXYZ"[v] == 'A' + v as char
  {
  }

  lemma SmallsInOrder(v: nat)
    requires v < 26
    ensures "abcdefghijklmnopqrstuvwxyz"[v] == 'a' + v as char
  {
  }

  /** The alphabet of table 2 of RFC 4648. */
  lemma AlphabetIsUrl(v: Sextet)
    ensures UrlLetter(v) == ("ABCDEFGHIJKLMNOPQRSTUVWXYZ" + "abcdefghijklmnopqrstuvwxyz" + "0123456789" + "-_")[v]
  {
    if v < 26 {
      CapitalsInOrder(v);
    } else if v < 52 {
      SmallsInOrder(v - 26);
    }
  }

  /** Three bytes are four sextets of the same bits, and what is left over is filled up with
      zero bits. */
  lemma SameBits(a: Byte, b: Byte, c: Byte)
    ensures var s := Sextets([a, b, c]);
            && |s| == 4
            && s[0] as int * 262144 + s[1] as int * 4096 + s[2] as int * 64 + s[3] as int
               == a as int * 65536 + b as int * 256 + c as int
    ensures var s := Sextets([a, b]);
            |s| == 3 && s[0] as int * 4096 + s[1] as int * 64 + s[2] as int == (a as int * 256 + b as int) * 4
    ensures var s := Sextets([a]);
            |s| == 2 && s[0] as int * 64 + s[1] as int == a as int * 16
  {
    assert [a, b, c][3..] == [];
  }

  /** What is encoded is the plain url-safe alphabet, without padding. */
  lemma EncodeIsUrlLetters(bytes: Bytes)
    ensures Encode(bytes) == UrlLetters(Sextets(bytes))
    ensures forall i :: 0 <= i < |Encode(bytes)| ==> Encode(bytes)[i] !in {'+', '/', '='}
  {
    var s := Sextets(bytes);
    ReplaceLetters(s, (3 - |bytes| % 3) % 3);
    forall i | 0 <= i < |s| ensures UrlLetter(s[i]) !in {'+', '/', '='} {
      LetterRoundTrip(s[i]);
    }
    hide Sextets, Replace;
    StripKeeps(UrlLetters(s), (3 - |bytes| % 3) % 3);
  }

  lemma ReplaceBack(s: seq<Sextet>)
    ensures Replace(Replace(UrlLetters(s), '-', '+'), '_', '/') == Letters(s)
  {
    var t := UrlLetters(s);
    forall i | 0 <= i < |s|
      ensures (if (if t[i] == '-' then '+' else t[i]) == '_' then '/' else if t[i] == '-' then '+' else t[i])
          == Letter(s[i])
    {
      LetterRoundTrip(s[i]);
    }
  }

  lemma AtobOfLetters(s: seq<Sextet>, pad: nat)
    requires |s| % 4 != 1 && pad == (4 - |s| % 4) % 4
    ensures Atob(Letters(s) + Equals(pad)) == Plain(Octets(s))
  {
    hide Letters, NotSpace, LetterValue, LetterValues, AllLetters, DropOneEquals, Equals, Octets, Filter;
    PadFits(|s|, pad);
    LettersAreLetters(s);
    PaddedIsDense(s, pad);
    DropPadding(Letters(s), pad);
  }

  lemma PadFits(n: nat, pad: nat)
    requires n % 4 != 1 && pad == (4 - n % 4) % 4
    ensures (n + pad) % 4 == 0 && pad <= 2
  {
  }

  lemma PaddedIsDense(s: seq<Sextet>, pad: nat)
    ensures Filter(Letters(s) + Equals(pad), NotSpace) == Letters(s) + Equals(pad)
    ensures |Letters(s) + Equals(pad)| == |s| + pad
  {
    LettersAreLetters(s);
    assert forall c :: c in Equals(pad) ==> NotSpace(c);
    hide Letters, NotSpace, Equals;
    EqualsLength(pad);
    FilterAll(Letters(s) + Equals(pad), NotSpace);
  }

  lemma EqualsLength(n: nat)
    ensures |Equals(n)| == n
  {
  }

  lemma LettersAreLetters(s: seq<Sextet>)
    ensures |Letters(s)| == |s| && AllLetters(Letters(s)) && LetterValues(Letters(s)) == s
    ensures forall c :: c in Letters(s) ==> NotSpace(c) && c != '='
    ensures |s| > 0 ==> Letters(s)[|s| - 1] != '='
  {
    forall i | 0 <= i < |s| ensures LetterValue(Letter(s[i])) == s[i] && Letter(s[i]) != '=' && NotSpace(Letter(s[i])) {
      LetterRoundTrip(s[i]);
    }
  }

  lemma DropPadding(s: string, pad: nat)
    requires pad <= 2 && (|s| == 0 || s[|s| - 1] != '=')
    ensures DropOneEquals(DropOneEquals(s + Equals(pad))) == s
  {
    if pad == 0 {
      assert s + Equals(0) == s;
    } else if pad == 1 {
      assert (s + Equals(1))[..|s|] == s;
    } else {
      assert (s + Equals(2))[..|s| + 1] == s + Equals(1) && (s + Equals(1))[..|s|] == s;
    }
  }

  /** Decoding undoes encoding for every byte string. */
  lemma DecodeOfEncode(bytes: Bytes)
    ensures Decode(Encode(bytes)) == Plain(bytes)
  {
    var s := Sextets(bytes);
    EncodeIsUrlLetters(bytes);
    OctetsOfSextets(bytes);
    hide Sextets, Octets, Encode, Atob;
    ReplaceBack(s);
    hide Replace;
    AtobOfLetters(s, (4 - |s| % 4) % 4);
    assert Letters(s) + Equals(0) == Letters(s) + "";
  }

  predicate IsCodeLetter(c: char) {
    'A' <= c <= 'Z' || 'a' <= c <= 'z' || '0' <= c <= '9' || c in {'-', '_', '+', '/'}
  }

  /** Of texts without white space and padding exactly those are decoded that consist of
      letters of either alphabet and do not end in a single letter of a group. */
  lemma DecodeAccepts(text: string)
    requires forall c :: c in text ==> c !in {' ', '\t', '\n', '\r', '\U{0C}', '='}
    ensures Decode(text).Plain? <==> |text| % 4 != 1 && forall c :: c in text ==> IsCodeLetter(c)
  {
    hide *;
    var b64 := Replace(Replace(text, '-', '+'), '_', '/');
    ReplacedLetters(text);
    DecodeIsAtob(text);
    AtobAccepts(b64, (4 - |b64| % 4) % 4);
    assert (forall c :: c in text ==> IsCodeLetter(c)) <==> forall k :: 0 <= k < |text| ==> IsCodeLetter(text[k]);
  }

  lemma ReplacedLetters(text: string)
    requires forall c :: c in text ==> c !in {' ', '\t', '\n', '\r', '\U{0C}', '='}
    ensures var b64 := Replace(Replace(text, '-', '+'), '_', '/');
            && |b64| == |text|
            && forall k :: 0 <= k < |text| ==>
                             && NotSpace(b64[k]) && b64[k] != '='
                             && (LetterValue(b64[k]) >= 0 <==> IsCodeLetter(text[k]))
  {
    hide NotSpace, LetterValue, IsCodeLetter;
    var b64 := Replace(Replace(text, '-', '+'), '_', '/');
    forall k | 0 <= k < |text|
      ensures NotSpace(b64[k]) && b64[k] != '=' && (LetterValue(b64[k]) >= 0 <==> IsCodeLetter(text[k]))
    {
      assert text[k] in text;
      ReplacedLetter(text[k]);
    }
  }

  lemma ReplacedLetter(c: char)
    requires c !in {' ', '\t', '\n', '\r', '\U{0C}', '='}
    ensures var d := if (if c == '-' then '+' else c) == '_' then '/' else if c == '-' then '+' else c;
            NotSpace(d) && d != '=' && (LetterValue(d) >= 0 <==> IsCodeLetter(c))
  {
  }

  lemma DecodeIsAtob(text: string)
    ensures var b64 := Replace(Replace(text, '-', '+'), '_', '/');
            Decode(text) == Atob(b64 + Equals((4 - |b64| % 4) % 4))
  {
    hide Atob, Replace;
    assert Equals(0) == "";
  }

  /** Padding has to fill a group. */
  lemma PaddingFillsTheGroup()
    ensures Atob("QQ==") == Plain([65]) && Atob("QQ=") == Malformed && Atob("QQ") == Plain([65])
  {
    LetterQ();
    hide *;
    Dense("QQ==");
    Dense("QQ=");
    Dense("QQ");
    PaddedQ();
  }

  lemma LetterQ()
    ensures AllLetters("QQ") && Octets(LetterValues("QQ")) == [65] && !AllLetters("QQ=")
  {
    assert LetterValues("QQ") == [16, 16];
    assert "QQ="[2] == '=' && LetterValue('=') == -1;
  }

  lemma Dense(s: string)
    requires forall c :: c in s ==> c == 'Q' || c == '='
    ensures Filter(s, NotSpace) == s
  {
    FilterAll(s, NotSpace);
  }

  lemma PaddedQ()
    requires Filter("QQ==", NotSpace) == "QQ==" && Filter("QQ=", NotSpace) == "QQ=" && Filter("QQ", NotSpace) == "QQ"
    requires AllLetters("QQ") && Octets(LetterValues("QQ")) == [65] && !AllLetters("QQ=")
    ensures Atob("QQ==") == Plain([65]) && Atob("QQ=") == Malformed && Atob("QQ") == Plain([65])
  {
    assert DropOneEquals("QQ==") == "QQ=" && DropOneEquals("QQ=") == "QQ";
    hide AllLetters, LetterValues, Octets, Filter, NotSpace;
  }

  lemma DenseAlready(s: string, n: nat)
    requires forall k :: 0 <= k < |s| ==> NotSpace(s[k])
    ensures Filter(s + Equals(n), NotSpace) == s + Equals(n) && |s + Equals(n)| == |s| + n
  {
    EqualsLength(n);
    assert forall k :: 0 <= k < n ==> Equals(n)[k] == '=';
    assert NotSpace('=');
    hide NotSpace, Equals;
    FilterAll(s + Equals(n), NotSpace);
  }

  lemma AtobAccepts(s: string, pad: nat)
    requires (forall k :: 0 <= k < |s| ==> NotSpace(s[k]) && s[k] != '=') && pad == (4 - |s| % 4) % 4
    ensures Atob(s + Equals(pad)).Plain? <==> |s| % 4 != 1 && forall k :: 0 <= k < |s| ==> LetterValue(s[k]) >= 0
  {
    hide *;
    DenseAlready(s, pad);
    AtobOfDense(s + Equals(pad));
    if pad <= 2 {
      DropPadding(s, pad);
      LettersAt(s);
    } else {
      LoneLetter(s);
    }
  }

  lemma LettersAt(s: string)
    ensures AllLetters(s) <==> forall k :: 0 <= k < |s| ==> LetterValue(s[k]) >= 0
  {
    hide LetterValue;
  }

  lemma AtobOfDense(t: string)
    requires Filter(t, NotSpace) == t && |t| % 4 == 0
    ensures var s := DropOneEquals(DropOneEquals(t)); Atob(t).Plain? <==> |s| % 4 != 1 && AllLetters(s)
  {
    hide AllLetters, DropOneEquals, Filter, NotSpace;
  }

  /** A single letter of a group is padded with three signs, one too many to be dropped. */
  lemma LoneLetter(s: string)
    ensures DropOneEquals(DropOneEquals(s + Equals(3))) == s + Equals(1) && !AllLetters(s + Equals(1))
  {
    assert (s + Equals(3))[..|s| + 2] == s + Equals(2) && (s + Equals(2))[..|s| + 1] == s + Equals(1);
    assert (s + Equals(1))[|s|] == '=' && LetterValue('=') == -1;
  }

  /** The decoder as the program writes it: the platform's text, unit by unit into a
      buffer. */
  method DecodeInto(text: string) returns (ok: bool, out: array<Byte>)
    ensures ok <==> Decode(text).Plain?
    ensures ok ==> fresh(out) && out[..] == Decode(text).bytes
  {
    var b64 := Replace(Replace(text, '-', '+'), '_', '/');
    var bin := Atob(b64 + if |b64| % 4 == 0 then "" else Equals(4 - |b64| % 4));
    if bin.Malformed? {
      ok, out := false, new Byte[0];
      return;
    }
    ok := true;
    out := Fill(bin.bytes);
  }

  method Fill(bin: Bytes) returns (out: array<Byte>)
    ensures fresh(out) && out[..] == bin
  {
    out := new Byte[|bin|](_ => 0);
    for i := 0 to |bin|
      invariant forall j :: 0 <= j < i ==> out[j] == bin[j]
    {
      out[i] := bin[i];
    }
  }
}
