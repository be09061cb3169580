/** Proof of work: counting the leading zero bits of a hexadecimal event id. */
module ProofOfWork {

  /** The value of a hexadecimal digit, or -1. */
  function Nibble(c: char): int {
    if '0' <= c <= '9' then c as int - '0' as int
    else if 'a' <= c <= 'f' then c as int - 'a' as int + 10
    else if 'A' <= c <= 'F' then c as int - 'A' as int + 10
    else -1
  }

  /** A digit's value is its position among the sixteen, in either case; anything else has
      none. */
  lemma NibbleIsPosition(c: char, k: nat)
    requires k < 16
    ensures Nibble(c) == k <==> c == "0123456789abcdef"[k] || c == "0123456789ABCDEF"[k]
    ensures Nibble(c) >= 0 <==> c in "0123456789abcdefABCDEF"
  {
    var lower, upper, all := "0123456789abcdef", "0123456789ABCDEF", "0123456789abcdefABCDEF";
    if 0 <= Nibble(c) {
      assert c == lower[Nibble(c)] || c == upper[Nibble(c)];
      assert c == all[Nibble(c)] || (Nibble(c) >= 10 && c == all[Nibble(c) + 6]);
    }
  }

  /** The leading zeros among the four bits of a non-zero nibble. */
  function LeadingZeros(nibble: int): nat {
    if nibble >= 8 then 0 else if nibble >= 4 then 1 else if nibble >= 2 then 2 else 3
  }

  function ZeroBits(hex: string): nat {
    if |hex| == 0 || Nibble(hex[0]) < 0 then 0
    else if Nibble(hex[0]) == 0 then 4 + ZeroBits(hex[1..])
    else LeadingZeros(Nibble(hex[0]))
  }

  method LeadingZeroBits(hex: string) returns (bits: nat)
    ensures bits == ZeroBits(hex)
  {
    bits := 0;
    for i := 0 to |hex|
      invariant bits + ZeroBits(hex[i..]) == ZeroBits(hex)
    {
      var nibble := Nibble(hex[i]);
      assert hex[i..][0] == hex[i] && hex[i..][1..] == hex[i + 1..];
      if nibble < 0 {
        return;
      }
      if nibble == 0 {
        bits := bits + 4;
        continue;
      }
      bits := bits + LeadingZeros(nibble);
      return;
    }
  }

  predicate HasPow(id: string, bits: int) {
    ZeroBits(id) >= bits
  }

  predicate IsHex(s: string) {
    forall k :: 0 <= k < |s| ==> Nibble(s[k]) >= 0
  }

  lemma HexIsHex(s: string)
    ensures IsHex(s) <==> forall c :: c in s ==> c in "0123456789abcdefABCDEF"
  {
    forall c ensures Nibble(c) >= 0 <==> c in "0123456789abcdefABCDEF" {
      NibbleIsPosition(c, 0);
    }
    assert forall k :: 0 <= k < |s| ==> s[k] in s;
  }

  function Pow2(n: nat): nat {
    if n == 0 then 1 else 2 * Pow2(n - 1)
  }

  /** The number that a hexadecimal string denotes. */
  function Value(hex: string): nat
    requires IsHex(hex)
  {
    if |hex| == 0 then 0 else Nibble(hex[0]) * Pow2(4 * (|hex| - 1)) + Value(hex[1..])
  }

  lemma {:induction false} Pow2Sum(m: nat, n: nat)
    ensures Pow2(m + n) == Pow2(m) * Pow2(n)
  {
    if m > 0 {
      Pow2Sum(m - 1, n);
      assert Pow2(m + n) == 2 * Pow2(m - 1 + n);
    }
  }

  lemma {:induction false} Pow2Monotone(m: nat, n: nat)
    requires m <= n
    ensures Pow2(m) <= Pow2(n)
  {
    if m < n {
      Pow2Monotone(m, n - 1);
    }
  }

  lemma Sixteen(n: nat)
    ensures Pow2(4 + n) == 16 * Pow2(n)
  {
    Pow2Sum(4, n);
    assert Pow2(4) == 16;
  }

  lemma Product(a: nat, b: nat, p: nat)
    requires a <= b
    ensures a * p <= b * p
  {
  }

  lemma {:induction false} ValueInRange(hex: string)
    requires IsHex(hex)
    ensures Value(hex) < Pow2(4 * |hex|)
  {
    if |hex| > 0 {
      ValueInRange(hex[1..]);
      var d, p := Nibble(hex[0]), Pow2(4 * (|hex| - 1));
      Sixteen(4 * (|hex| - 1));
      hide Pow2, Nibble;
      Product(d, 15, p);
    }
  }

  /** A nibble's leading zeros bracket it between two powers of two. */
  lemma NibbleBracket(d: nat)
    requires 0 < d < 16
    ensures Pow2(3 - LeadingZeros(d)) <= d < Pow2(4 - LeadingZeros(d))
  {
    assert Pow2(0) == 1 && Pow2(1) == 2 && Pow2(2) == 4 && Pow2(3) == 8 && Pow2(4) == 16;
  }

  /** The work is done exactly when the id, read as a number, is below the target. */
  lemma {:induction false} PowIsNumericBound(hex: string, bits: nat)
    requires IsHex(hex)
    ensures HasPow(hex, bits) <==> bits <= 4 * |hex| && Value(hex) < Pow2(4 * |hex| - bits)
  {
    if |hex| > 0 {
      var d, n := Nibble(hex[0]), 4 * (|hex| - 1);
      ValueInRange(hex[1..]);
      if d == 0 {
        if bits <= 4 {
          Pow2Monotone(n, n + 4 - bits);
        } else {
          PowIsNumericBound(hex[1..], bits - 4);
        }
      } else {
        LeadingNibble(d, n, Value(hex[1..]), bits);
      }
    }
  }

  /** `d` followed by `n` more bits has as many leading zeros as `d`. */
  lemma Bracketed(d: nat, n: nat, tail: nat)
    requires 0 < d < 16 && tail < Pow2(n)
    ensures Pow2(n + 3 - LeadingZeros(d)) <= d * Pow2(n) + tail < Pow2(n + 4 - LeadingZeros(d))
  {
    var z := LeadingZeros(d);
    NibbleBracket(d);
    Pow2Sum(4 - z, n);
    Pow2Sum(3 - z, n);
    var p := Pow2(n);
    hide LeadingZeros, Pow2;
    Product(d + 1, Pow2(4 - z), p);
    Product(Pow2(3 - z), d, p);
    assert (d + 1) * p == d * p + p;
  }

  lemma LeadingNibble(d: nat, n: nat, tail: nat, bits: nat)
    requires 0 < d < 16 && tail < Pow2(n)
    ensures bits <= LeadingZeros(d) <==> bits <= n + 4 && d * Pow2(n) + tail < Pow2(n + 4 - bits)
  {
    var z := LeadingZeros(d);
    Bracketed(d, n, tail);
    if bits <= z {
      Pow2Monotone(n + 4 - z, n + 4 - bits);
    } else if bits <= n + 4 {
      Pow2Monotone(n + 4 - bits, n + 3 - z);
    }
    hide Pow2;
  }

  /** Characters from the first one that is no hexadecimal digit on do not count. */
  lemma {:induction false} OnlyHexCounts(hex: string, junk: string)
    requires |junk| > 0 && Nibble(junk[0]) < 0
    ensures ZeroBits(hex + junk) == ZeroBits(hex)
  {
    if |hex| == 0 {
      assert hex + junk == junk;
    } else {
      assert (hex + junk)[1..] == hex[1..] + junk;
      OnlyHexCounts(hex[1..], junk);
    }
  }
}
