/** Numerals: how lib/printf.c writes the digits of a number and how its _atoi reads them. */
module Digits {
  import opened Arithmetic
  import opened Machine

  function Repeat(c: char, n: nat): (r: string)
    ensures |r| == n && forall k :: 0 <= k < n ==> r[k] == c
  {
    seq(n, _ => c)
  }

  function Reverse(s: string): (r: string)
    ensures |r| == |s| && forall k :: 0 <= k < |s| ==> r[k] == s[|s| - 1 - k]
  {
    seq(|s|, k requires 0 <= k < |s| => s[|s| - 1 - k])
  }

  lemma ReversePush(s: string, c: char)
    ensures Reverse(s + [c]) == [c] + Reverse(s)
  {
  }

  // --- Digits ---

  predicate IsDigit(c: char) {
    '0' <= c <= '9'
  }

  predicate Numeric(base: nat) {
    base == 2 || base == 8 || base == 10 || base == 16
  }

  /** digit < 10 ? '0' + digit : (uppercase ? 'A' : 'a') + digit - 10 */
  function DigitChar(d: nat, upper: bool): char
    requires d < 16
  {
    if d < 10 then '0' + d as char
    else if upper then 'A' + (d - 10) as char
    else 'a' + (d - 10) as char
  }

  function DigitValue(c: char): nat {
    if '0' <= c <= '9' then (c - '0') as nat
    else if 'A' <= c <= 'F' then (c - 'A') as nat + 10
    else if 'a' <= c <= 'f' then (c - 'a') as nat + 10
    else 0
  }

  /** The sixteen digits in both cases, and what they stand for; ten of them are decimal. */
  lemma DigitsAreThese(d: nat, upper: bool)
    requires d < 16
    ensures DigitChar(d, upper) == (if upper then "0123456789ABCDEF" else "0123456789abcdef")[d]
    ensures DigitValue("0123456789ABCDEF"[d]) == DigitValue("0123456789abcdef"[d]) == d
    ensures IsDigit("0123456789ABCDEF"[d]) <==> d < 10
  {
  }

  lemma DigitRoundTrip(d: nat, upper: bool)
    requires d < 16
    ensures DigitValue(DigitChar(d, upper)) == d
    ensures d < 10 ==> IsDigit(DigitChar(d, upper))
    ensures DigitChar(d, upper) != '0' <==> d != 0
  {
  }

  /** The digits of v, most significant first, without leading zeros; "0" for zero. */
  function Numeral(v: nat, base: nat, upper: bool): (r: string)
    requires 2 <= base <= 16
    ensures |r| >= 1
    decreases v
  {
    if v < base then [DigitChar(v, upper)]
    else
      DivSmaller(v, base);
      Numeral(v / base, base, upper) + [DigitChar(v % base, upper)]
  }

  lemma ProductSign(base: int, q: int)
    requires base >= 2
    ensures q <= 0 ==> base * q <= 0
    ensures q >= 0 ==> base * q >= 2 * q
  {
  }

  lemma DivSmaller(v: nat, base: nat)
    requires 2 <= base <= v
    ensures 0 < v / base < v && v == base * (v / base) + v % base
  {
    ProductSign(base, v / base);
  }

  /** What a string of digits stands for. */
  function Value(s: string, base: nat): nat {
    if s == [] then 0 else base * Value(s[..|s| - 1], base) + DigitValue(s[|s| - 1])
  }

  /** Reading a numeral gives back the number, in every base. */
  lemma {:induction false} NumeralReadsBack(v: nat, base: nat, upper: bool)
    requires 2 <= base <= 16
    ensures Value(Numeral(v, base, upper), base) == v
    decreases v
  {
    if v < base {
      DigitRoundTrip(v, upper);
      assert Numeral(v, base, upper)[..0] == [];
    } else {
      var q, r := v / base, v % base;
      DivSmaller(v, base);
      DigitRoundTrip(r, upper);
      NumeralReadsBack(q, base, upper);
      ValuePush(Numeral(q, base, upper), DigitChar(r, upper), base);
    }
  }

  lemma ValuePush(s: string, c: char, base: nat)
    ensures Value(s + [c], base) == base * Value(s, base) + DigitValue(c)
  {
    assert (s + [c])[..|s|] == s;
  }

  /** The first digit is zero only in the numeral of zero. */
  lemma {:induction false} NumeralLeads(v: nat, base: nat, upper: bool)
    requires 2 <= base <= 16
    ensures Numeral(v, base, upper)[0] == '0' <==> v == 0
    ensures v == 0 ==> Numeral(v, base, upper) == "0"
    decreases v
  {
    if v < base {
      DigitRoundTrip(v, upper);
    } else {
      DivSmaller(v, base);
      NumeralLeads(v / base, base, upper);
    }
  }

  // --- The scratch buffer holds the 32 lowest digits ---

  const BUFFER_SIZE: nat := 32

  /** What the do-while loop of _ntoa_long leaves in a buffer of n characters, read backwards. */
  function LowDigits(v: nat, base: nat, upper: bool, n: nat): (r: string)
    requires 2 <= base <= 16 && n >= 1
    ensures 1 <= |r| <= n
    decreases n
  {
    if v / base == 0 || n == 1 then [DigitChar(v % base, upper)]
    else LowDigits(v / base, base, upper, n - 1) + [DigitChar(v % base, upper)]
  }

  lemma SmallQuotient(v: nat, base: nat)
    requires base >= 2
    ensures v / base == 0 <==> v < base
    ensures v < base ==> v % base == v
  {
    if v < base {
      DivModUnique(v, base, 0, v);
    } else {
      DivSmaller(v, base);
    }
  }

  lemma {:induction false} LowDigitsAreNumeral(v: nat, base: nat, upper: bool, n: nat)
    requires 2 <= base <= 16 && n >= 1 && |Numeral(v, base, upper)| <= n
    ensures LowDigits(v, base, upper, n) == Numeral(v, base, upper)
    decreases n
  {
    SmallQuotient(v, base);
    if v >= base {
      LowDigitsAreNumeral(v / base, base, upper, n - 1);
    }
  }

  ghost function Pow(base: nat, n: nat): nat {
    if n == 0 then 1 else base * Pow(base, n - 1)
  }

  lemma MulRegroup(a: int, b: int, c: int)
    ensures (a * b) * c == a * (b * c)
  {
  }

  lemma {:induction false} PowAdd(base: nat, m: nat, n: nat)
    ensures Pow(base, m + n) == Pow(base, m) * Pow(base, n)
    decreases m
  {
    if m > 0 {
      PowAdd(base, m - 1, n);
      MulRegroup(base, Pow(base, m - 1), Pow(base, n));
      assert m + n - 1 == (m - 1) + n;
    }
  }

  lemma ModSplit(v: nat, base: nat, p: nat)
    requires base >= 1 && p >= 1
    ensures base * p >= 1 && v % (base * p) == base * (v / base % p) + v % base
  {
    var q, r := v / base, v % base;
    var m := base * (q % p) + r;
    assert v == (base * p) * (q / p) + m by {
      assert base * q == base * (p * (q / p) + q % p);
      assert base * (p * (q / p)) == (base * p) * (q / p);
    }
    assert 0 <= m < base * p by {
      assert base * (q % p) + base <= base * p by {
        assert q % p + 1 <= p;
        MulOrder(base, q % p + 1, p);
      }
    }
    DivModUnique(v, base * p, q / p, m);
  }

  lemma MulOrder(a: nat, x: nat, y: nat)
    requires x <= y
    ensures a * x <= a * y
  {
  }

  lemma {:induction false} PowPositive(base: nat, n: nat)
    requires base >= 2
    ensures Pow(base, n) >= 1 && (n >= 1 ==> Pow(base, n) >= base)
  {
    if n > 0 {
      PowPositive(base, n - 1);
      MulOrder(base, 1, Pow(base, n - 1));
    }
  }

  lemma ValueOne(c: char, base: nat)
    ensures Value([c], base) == DigitValue(c)
  {
    ValuePush([], c, base);
    assert [] + [c] == [c];
  }

  /** The n lowest digits stand for the number modulo base^n. */
  lemma {:induction false} LowDigitsReadBack(v: nat, base: nat, upper: bool, n: nat)
    requires 2 <= base <= 16 && n >= 1
    ensures Pow(base, n) >= base && Value(LowDigits(v, base, upper, n), base) == v % Pow(base, n)
    decreases n
  {
    PowPositive(base, n);
    PowPositive(base, n - 1);
    SmallQuotient(v, base);
    DigitRoundTrip(v % base, upper);
    ValueOne(DigitChar(v % base, upper), base);
    if v < base {
      SmallQuotient(v, Pow(base, n));
    } else if n == 1 {
      assert Pow(base, 0) == 1;
    } else {
      LowDigitsReadBack(v / base, base, upper, n - 1);
      PushDigit(LowDigits(v / base, base, upper, n - 1), v, base, upper, Pow(base, n - 1));
    }
  }

  lemma PushDigit(low: string, v: nat, base: nat, upper: bool, p: nat)
    requires 2 <= base <= 16 && p >= 1 && Value(low, base) == v / base % p
    ensures base * p >= 1 && Value(low + [DigitChar(v % base, upper)], base) == v % (base * p)
  {
    DigitRoundTrip(v % base, upper);
    ValuePush(low, DigitChar(v % base, upper), base);
    ModSplit(v, base, p);
  }

  /** A number below base^k has at most k digits; base^k is bounded below by a smaller base. */
  lemma {:induction false} NumeralBelow(v: nat, base: nat, upper: bool, k: nat)
    requires 2 <= base <= 16 && k >= 1 && v < Pow(base, k)
    ensures |Numeral(v, base, upper)| <= k
    decreases k
  {
    if v >= base {
      DivSmaller(v, base);
      QuotientBelow(v, base, Pow(base, k - 1));
      if k > 1 {
        NumeralBelow(v / base, base, upper, k - 1);
      }
    }
  }

  lemma QuotientBelow(v: nat, base: nat, p: nat)
    requires base >= 1 && v < base * p
    ensures v / base < p
  {
    var q := v / base;
    if p <= q {
      MulOrder(base, p, q);
    }
  }

  /** In the bases of C a 64-bit number has at most 22 digits, and the buffer holds them all. */
  lemma NumeralFits(v: u64, base: nat, upper: bool)
    requires base == 8 || base == 10 || base == 16
    ensures |Numeral(v, base, upper)| <= 22
    ensures LowDigits(v, base, upper, BUFFER_SIZE) == Numeral(v, base, upper)
  {
    assert Pow(8, 11) == 0x2_0000_0000;
    assert Pow(10, 11) == 100_000_000_000;
    assert Pow(16, 11) == 0x1000_0000_0000;
    PowAdd(base, 11, 11);
    NumeralBelow(v, base, upper, 22);
    LowDigitsAreNumeral(v, base, upper, BUFFER_SIZE);
  }
}
