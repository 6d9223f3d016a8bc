/**
 * The Python conversions between integers and text that the rule table is
 * built from: `bin(n)[2:]`, `str(n)`, `s.rjust(width, fill)` and `int(c)` of a
 * single digit, together with the binary digits (bits) of a natural number.
 */
module Formatting {

  /** The decimal digit character of 0 <= d <= 9. */
  function DigitChar(d: int): (c: char)
    requires 0 <= d <= 9
    ensures '0' <= c <= '9'
  {
    ('0' as int + d) as char
  }

  /** `int(c)` for a single decimal digit character. */
  function DigitValue(c: char): (d: int)
    requires '0' <= c <= '9'
    ensures 0 <= d <= 9 && DigitChar(d) == c
  {
    c as int - '0' as int
  }

  lemma DigitRoundTrip(d: int)
    requires 0 <= d <= 9
    ensures DigitValue(DigitChar(d)) == d
  {
  }

  predicate IsBinaryDigit(c: char) {
    c == '0' || c == '1'
  }

  function Pow2(k: nat): (p: nat)
    ensures 1 <= p
  {
    if k == 0 then 1 else 2 * Pow2(k - 1)
  }

  lemma Pow2Byte()
    ensures Pow2(8) == 256
  {
  }

  /** Bit k of n, counting from the least significant bit. */
  function Bit(n: nat, k: nat): (b: nat)
    ensures b <= 1
  {
    if k == 0 then n % 2 else Bit(n / 2, k - 1)
  }

  /** `bin(n)[2:]`: the binary digits of n, most significant first, without
      leading zeros ("0" for zero). */
  function Bin(n: nat): (s: string)
    ensures 1 <= |s|
    ensures forall i :: 0 <= i < |s| ==> IsBinaryDigit(s[i])
  {
    if n < 2 then [DigitChar(n)] else Bin(n / 2) + [DigitChar(n % 2)]
  }

  /** `str(n)` for a non-negative n: its decimal digits. */
  function NatStr(n: nat): (s: string)
    ensures 1 <= |s|
    ensures |s| == 1 <==> n <= 9
  {
    if n <= 9 then [DigitChar(n)] else NatStr(n / 10) + [DigitChar(n % 10)]
  }

  /** `str(n)`: a minus sign before the digits of a negative number. A
      single-character result is exactly a one-digit number. */
  function Str(n: int): (s: string)
    ensures 1 <= |s|
    ensures |s| == 1 <==> 0 <= n <= 9
    ensures 0 <= n <= 9 ==> s == [DigitChar(n)]
  {
    if n < 0 then "-" + NatStr(-n) else NatStr(n)
  }

  /** `s.rjust(width, fill)`: s right-justified in a field of `width`
      characters, padded on the left with `fill`; s itself when it is already
      that wide. */
  function RJust(s: string, width: int, fill: char): (r: string)
    ensures |r| == if |s| < width then width else |s|
    ensures forall i :: |r| - |s| <= i < |r| ==> r[i] == s[i - (|r| - |s|)]
    ensures forall i :: 0 <= i < |r| - |s| ==> r[i] == fill
  {
    if |s| < width then seq(width - |s|, _ => fill) + s else s
  }

  /** d * x is at least d for a positive d and x. */
  lemma {:induction false} MulAtLeast(d: int, x: int)
    requires 0 < d && 1 <= x
    ensures d <= d * x
    decreases x
  {
    if x > 1 {
      MulAtLeast(d, x - 1);
      assert d * x == d * (x - 1) + d;
    }
  }

  /** Padding binary digits with zeros leaves only binary digits. */
  lemma BinaryPadding(s: string, width: int)
    requires forall i :: 0 <= i < |s| ==> IsBinaryDigit(s[i])
    ensures forall i :: 0 <= i < |RJust(s, width, '0')| ==> IsBinaryDigit(RJust(s, width, '0')[i])
  {
    var r := RJust(s, width, '0');
    forall i | 0 <= i < |r| ensures IsBinaryDigit(r[i]) {
    }
  }

  /** Euclidean division has a unique quotient and remainder. */
  lemma DivUnique(n: int, d: int, q: int, r: int)
    requires 0 < d && 0 <= r < d && n == d * q + r
    ensures n / d == q && n % d == r
  {
    var q2, r2 := n / d, n % d;
    assert n == d * q2 + r2;
    if q2 < q {
      MulAtLeast(d, q - q2);
    } else if q2 > q {
      MulAtLeast(d, q2 - q);
    }
  }

  /** Halving and then dividing by p is dividing by 2p. */
  lemma DivHalf(n: nat, p: nat)
    requires 0 < p
    ensures n / 2 / p == n / (2 * p)
  {
    var q, r := n / (2 * p), n % (2 * p);
    assert n == 2 * p * q + r;
    assert n / 2 == p * q + r / 2 by {
      DivUnique(n, 2, p * q + r / 2, r % 2);
    }
    DivUnique(n / 2, p, q, r / 2);
  }

  /** Bit k of n is `(n // 2**k) % 2`. */
  lemma {:induction false} BitIsDivMod(n: nat, k: nat)
    ensures Bit(n, k) == (n / Pow2(k)) % 2
  {
    if k > 0 {
      BitIsDivMod(n / 2, k - 1);
      DivHalf(n, Pow2(k - 1));
    }
  }

  lemma {:induction false} BitOfZero(k: nat)
    ensures Bit(0, k) == 0
  {
    if k > 0 {
      BitOfZero(k - 1);
    }
  }

  /** Every bit below m of 2**m - 1 is set. */
  lemma {:induction false} LowBitsOfAllOnes(m: nat, k: nat)
    requires k < m
    ensures Bit(Pow2(m) - 1, k) == 1
  {
    var half := Pow2(m - 1);
    assert Pow2(m) - 1 == 2 * (half - 1) + 1;
    DivUnique(Pow2(m) - 1, 2, half - 1, 1);
    if k > 0 {
      LowBitsOfAllOnes(m - 1, k - 1);
    }
  }

  /** All eight bits of 255 are set. */
  lemma ByteAllOnes(k: nat)
    requires k < 8
    ensures Bit(255, k) == 1
  {
    Pow2Byte();
    LowBitsOfAllOnes(8, k);
  }

  /** `bin(n)[2:].rjust(w, "0")` for n < 2**w has exactly w characters, and
      character i is bit w-1-i of n: the binary expansion padded to w digits,
      most significant first. */
  lemma {:induction false} PaddedBinDigit(n: nat, w: nat, i: nat)
    requires n < Pow2(w) && i < w
    ensures |Bin(n)| <= w
    ensures RJust(Bin(n), w, '0')[i] == DigitChar(Bit(n, w - 1 - i))
  {
    if n < 2 {
      if i < w - 1 {
        BitOfZero(w - 2 - i);
      }
    } else {
      assert 2 <= w;
      assert n / 2 < Pow2(w - 1);
      var rest := RJust(Bin(n / 2), w - 1, '0');
      PaddedBinDigit(n / 2, w - 1, 0);
      assert RJust(Bin(n), w, '0') == rest + [DigitChar(n % 2)];
      if i < w - 1 {
        PaddedBinDigit(n / 2, w - 1, i);
      }
    }
  }
}
