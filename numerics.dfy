/**
 * The C/C++ integer behaviour the store plug-in relies on, written out over
 * Dafny's unbounded integers: fixed-width ranges, division that truncates
 * toward zero, `std::to_string` on a signed integer and `printf`'s `%0Nd`.
 * Each printing function has a parser beside it and a round-trip lemma.
 */
module Numerics {
  import opened Wrappers

  const INT64_MIN := -0x8000_0000_0000_0000
  const INT64_MAX := 0x7FFF_FFFF_FFFF_FFFF
  const TWO_POW_32 := 0x1_0000_0000
  const TWO_POW_64 := 0x1_0000_0000_0000_0000

  predicate IsInt64(n: int) { INT64_MIN <= n <= INT64_MAX }

  type int32 = n: int | -0x8000_0000 <= n < 0x8000_0000

  type int64 = n: int | -0x8000_0000_0000_0000 <= n < 0x8000_0000_0000_0000

  /**
   * C++ `/` on integers: the quotient is truncated toward zero, so for a
   * negative dividend it is rounded up, unlike Dafny's Euclidean `/`.
   */
  function TruncDiv(n: int, d: int): (q: int)
    requires d > 0
    ensures 0 <= n ==> 0 <= q && q * d <= n < q * d + d
    ensures n < 0 ==> q <= 0 && q * d - d < n <= q * d
  {
    if n >= 0 then
      DivBounds(n, d);
      n / d
    else
      DivBounds(-n, d);
      -((-n) / d)
  }

  /** Euclidean division of a non-negative value: a non-negative quotient, rounded down. */
  lemma DivBounds(n: nat, d: int)
    requires d > 0
    ensures 0 <= n / d && (n / d) * d <= n < (n / d) * d + d
  {
    var q, r := n / d, n % d;
    assert n == d * q + r;
    if q < 0 {
      ProductNegative(d, q);
    }
  }

  /** A positive times a negative is at most minus the positive. */
  lemma {:induction false} ProductNegative(d: int, q: int)
    requires d > 0 && q < 0
    ensures d * q <= -d
    decreases -q
  {
    if q < -1 {
      ProductNegative(d, q + 1);
      assert d * q == d * (q + 1) - d;
    }
  }

  /** Dividing a 64-bit value by a positive constant cannot leave the 64-bit range. */
  lemma TruncDivInt64(n: int, d: int)
    requires d >= 1 && IsInt64(n)
    ensures IsInt64(TruncDiv(n, d))
  {
    if n >= 0 {
      assert TruncDiv(n, d) * d <= n;
      assert TruncDiv(n, d) <= TruncDiv(n, d) * d;
    } else {
      assert n <= TruncDiv(n, d) * d;
      assert TruncDiv(n, d) * d <= TruncDiv(n, d);
    }
  }

  /**
   * Casting 100 ns ticks to whole milliseconds and then to whole seconds, each
   * cast truncating toward zero, is truncating the ticks to whole seconds.
   */
  lemma TruncDivTicksToSeconds(n: int)
    ensures TruncDiv(TruncDiv(n, 10_000), 1_000) == TruncDiv(n, 10_000_000)
  {
    var m := if n < 0 then -n else n;
    assert (m / 10_000) / 1_000 == m / 10_000_000;
  }

  predicate IsDigit(c: char) { '0' <= c <= '9' }

  predicate AllDigits(s: string) { forall i :: 0 <= i < |s| ==> IsDigit(s[i]) }

  function DigitChar(k: int): (c: char)
    requires 0 <= k < 10
    ensures IsDigit(c)
  {
    (('0' as int) + k) as char
  }

  function DigitValue(c: char): int
    requires IsDigit(c)
  {
    c as int - '0' as int
  }

  /** The decimal digits of n, most significant first, without leading zeros. */
  function NatDigits(n: nat): (s: string)
    ensures |s| >= 1 && AllDigits(s)
    ensures |s| > 1 ==> s[0] != '0'
  {
    if n < 10 then [DigitChar(n)] else NatDigits(n / 10) + [DigitChar(n % 10)]
  }

  /** The value of a string of decimal digits. */
  function ParseNat(s: string): nat
    requires AllDigits(s)
  {
    if s == [] then 0 else ParseNat(s[..|s| - 1]) * 10 + DigitValue(s[|s| - 1])
  }

  lemma {:induction false} ParseNatDigits(n: nat)
    ensures ParseNat(NatDigits(n)) == n
  {
    if n >= 10 {
      var s := NatDigits(n);
      assert s[..|s| - 1] == NatDigits(n / 10);
      ParseNatDigits(n / 10);
    }
  }

  /** Reads back what DecimalString writes. */
  function ParseDecimal(s: string): Option<int>
  {
    if |s| >= 2 && s[0] == '-' && AllDigits(s[1..]) then Some(0 - ParseNat(s[1..]))
    else if |s| >= 1 && AllDigits(s) then Some(ParseNat(s))
    else None
  }

  /** `std::to_string` of a signed integer: an optional minus sign, then the digits; it reads back as the integer. */
  function DecimalString(n: int): (s: string)
    ensures |s| >= 1
    ensures ParseDecimal(s) == Some(n)
  {
    if n < 0 then
      var s := "-" + NatDigits(-n);
      assert s[1..] == NatDigits(-n);
      assert !IsDigit(s[0]);
      ParseNatDigits(-n);
      s
    else
      ParseNatDigits(n);
      NatDigits(n)
  }

  /** Two integers print the same iff they are equal. */
  lemma DecimalStringInjective(m: int, n: int)
    ensures DecimalString(m) == DecimalString(n) <==> m == n
  {
  }

  function Pow10(k: nat): (p: nat)
    ensures p >= 1
  {
    if k == 0 then 1 else 10 * Pow10(k - 1)
  }

  function Zeros(k: nat): (s: string)
    ensures |s| == k && AllDigits(s)
  {
    seq(k, i => '0')
  }

  /**
   * `printf`'s `%0<width>d` of a non-negative value: left-padded with zeros to
   * at least `width` characters. It reads back as the value, and it is exactly
   * `width` long iff the value has at most `width` digits.
   */
  function PadDecimal(n: nat, width: nat): (s: string)
    ensures AllDigits(s) && |s| >= width
    ensures ParseNat(s) == n
    ensures width >= 1 ==> (|s| == width <==> n < Pow10(width))
  {
    var digits := NatDigits(n);
    ParseNatDigits(n);
    DigitCount(n, width);
    if |digits| < width then
      ParseNatZerosPrefix(width - |digits|, digits);
      Zeros(width - |digits|) + digits
    else
      digits
  }

  /** A value has at most k digits exactly when it is below 10^k. */
  lemma DigitCount(n: nat, k: nat)
    ensures k >= 1 ==> (|NatDigits(n)| <= k <==> n < Pow10(k))
  {
    if n < Pow10(k) && k >= 1 {
      NatDigitsLength(n, k);
    } else if n >= Pow10(k) {
      NatDigitsLengthLower(n, k);
    }
  }

  lemma {:induction false} NatDigitsLength(n: nat, k: nat)
    requires 1 <= k && n < Pow10(k)
    ensures |NatDigits(n)| <= k
  {
    if n >= 10 {
      NatDigitsLength(n / 10, k - 1);
    }
  }

  /** A value of at least 10^k has more than k digits. */
  lemma {:induction false} NatDigitsLengthLower(n: nat, k: nat)
    requires n >= Pow10(k)
    ensures |NatDigits(n)| > k
  {
    if k > 0 {
      assert n >= 10;
      NatDigitsLengthLower(n / 10, k - 1);
    }
  }

  lemma {:induction false} ParseNatZerosPrefix(k: nat, s: string)
    requires AllDigits(s)
    ensures ParseNat(Zeros(k) + s) == ParseNat(s)
    decreases |s|, k
  {
    if s == [] {
      assert Zeros(k) + s == Zeros(k);
      if k > 0 {
        assert Zeros(k)[..k - 1] == Zeros(k - 1);
        ParseNatZerosPrefix(k - 1, []);
        assert Zeros(k - 1) + [] == Zeros(k - 1);
      }
    } else {
      var t := Zeros(k) + s;
      assert t[..|t| - 1] == Zeros(k) + s[..|s| - 1];
      ParseNatZerosPrefix(k, s[..|s| - 1]);
    }
  }
}
