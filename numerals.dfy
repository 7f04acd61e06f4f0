/**
 * Decimal numerals: Python's `str(n)` and `format(n, "04d")` for natural
 * numbers, the value a digit string denotes, and how digit strings of one
 * length compare.
 */
module Numerals {
  import opened Text

  predicate IsDigit(c: char) {
    '0' <= c <= '9'
  }

  predicate AllDigits(s: string) {
    forall i | 0 <= i < |s| :: IsDigit(s[i])
  }

  function DigitValue(c: char): nat
    requires IsDigit(c)
  {
    c as int - '0' as int
  }

  function DigitChar(d: nat): (c: char)
    requires d < 10
    ensures IsDigit(c) && DigitValue(c) == d
  {
    ('0' as int + d) as char
  }

  function Pow10(k: nat): (r: nat)
    ensures r >= 1
  {
    if k == 0 then 1 else 10 * Pow10(k - 1)
  }

  /** `str(n)`: the decimal digits of `n`, most significant first, with no
      leading zero unless `n` is zero. */
  function Decimal(n: nat): (r: string)
    ensures |r| >= 1 && AllDigits(r)
    ensures r[0] == '0' ==> n == 0
  {
    if n < 10 then [DigitChar(n)] else Decimal(n / 10) + [DigitChar(n % 10)]
  }

  /** The number a string of decimal digits denotes (the empty string denotes 0). */
  function Value(s: string): nat
    requires AllDigits(s)
  {
    if s == [] then 0 else Value(s[..|s| - 1]) * 10 + DigitValue(s[|s| - 1])
  }

  /** Reading back the digits `Decimal` writes gives the number. */
  lemma {:induction false} ValueOfDecimal(n: nat)
    ensures Value(Decimal(n)) == n
  {
    if n >= 10 {
      ValueOfDecimal(n / 10);
      var d := Decimal(n);
      assert d[..|d| - 1] == Decimal(n / 10);
    }
  }

  /** A string of k digits denotes less than 10^k. */
  lemma {:induction false} ValueBound(s: string)
    requires AllDigits(s)
    ensures Value(s) < Pow10(|s|)
  {
    if s != [] {
      var init := s[..|s| - 1];
      ValueBound(init);
      assert Value(init) + 1 <= Pow10(|init|);
      MulMonotone(Value(init) + 1, Pow10(|init|), 10);
    }
  }

  /** `str(n)` has at most k digits exactly when n < 10^k. */
  lemma {:induction false} DecimalLength(n: nat, k: nat)
    requires k >= 1
    ensures |Decimal(n)| <= k <==> n < Pow10(k)
  {
    if n >= 10 {
      if k == 1 {
        assert |Decimal(n / 10)| >= 1;
      } else {
        DecimalLength(n / 10, k - 1);
      }
    }
  }

  /** `format(n, "0{width}d")`: `str(n)` with zeros in front up to `width`
      characters; never truncated. */
  function ZeroPadded(n: nat, width: nat): (r: string)
    ensures AllDigits(r)
    ensures |r| == if |Decimal(n)| >= width then |Decimal(n)| else width
    ensures r[|r| - |Decimal(n)|..] == Decimal(n)
    ensures forall i | 0 <= i < |r| - |Decimal(n)| :: r[i] == '0'
  {
    var d := Decimal(n);
    if |d| >= width then d else Repeat('0', width - |d|) + d
  }

  /** Leading zeros do not change the value a digit string denotes. */
  lemma {:induction false} ValueIgnoresLeadingZeros(z: string, s: string)
    requires forall i | 0 <= i < |z| :: z[i] == '0'
    requires AllDigits(s)
    ensures AllDigits(z + s) && Value(z + s) == Value(s)
  {
    if s == [] {
      assert z + s == z;
      ValueOfZeros(z);
    } else {
      assert (z + s)[..|z + s| - 1] == z + s[..|s| - 1];
      ValueIgnoresLeadingZeros(z, s[..|s| - 1]);
    }
  }

  lemma {:induction false} ValueOfZeros(z: string)
    requires forall i | 0 <= i < |z| :: z[i] == '0'
    ensures AllDigits(z) && Value(z) == 0
  {
    if z != [] {
      ValueOfZeros(z[..|z| - 1]);
    }
  }

  /** A zero-padded numeral still denotes its number. */
  lemma ValueOfZeroPadded(n: nat, width: nat)
    ensures Value(ZeroPadded(n, width)) == n
  {
    var d := Decimal(n);
    var r := ZeroPadded(n, width);
    ValueOfDecimal(n);
    if |d| < width {
      ValueIgnoresLeadingZeros(Repeat('0', width - |d|), d);
    }
  }

  /** The leading digit's share of the value. */
  lemma {:induction false} ValueFront(s: string)
    requires s != [] && AllDigits(s)
    ensures Value(s) == DigitValue(s[0]) * Pow10(|s| - 1) + Value(s[1..])
  {
    var n := |s|;
    if n > 1 {
      var init := s[..n - 1];
      ValueFront(init);
      assert init[1..] == s[1..][..n - 2];
      assert s[1..][n - 2] == s[n - 1];
      var lead, p, v, d := DigitValue(s[0]), Pow10(n - 2), Value(init[1..]), DigitValue(s[n - 1]);
      assert Value(s) == (lead * p + v) * 10 + d;
      assert Value(s[1..]) == v * 10 + d;
      assert Pow10(n - 1) == 10 * p;
      Regroup(lead, p, v, d);
    }
  }

  lemma Regroup(lead: int, p: int, v: int, d: int)
    ensures (lead * p + v) * 10 + d == lead * (10 * p) + (v * 10 + d)
  {
  }

  lemma MulMonotone(x: nat, y: nat, p: nat)
    requires x <= y
    ensures x * p <= y * p
  {
  }

  /** A smaller leading digit decides, whatever follows it. */
  lemma LeadingDigitDecides(da: nat, db: nat, p: nat, ra: nat, rb: nat)
    requires da < db && ra < p
    ensures da * p + ra < db * p + rb
  {
    MulMonotone(da + 1, db, p);
    assert (da + 1) * p == da * p + p;
  }

  /** Digit strings of one length compare as strings exactly as their values
      compare as numbers. */
  lemma {:induction false} LexLessMatchesValue(a: string, b: string)
    requires |a| == |b| && AllDigits(a) && AllDigits(b)
    ensures LexLess(a, b) <==> Value(a) < Value(b)
  {
    if a != [] {
      ValueFront(a);
      ValueFront(b);
      var p := Pow10(|a| - 1);
      var da, db := DigitValue(a[0]), DigitValue(b[0]);
      if a[0] == b[0] {
        LexLessMatchesValue(a[1..], b[1..]);
      } else if a[0] < b[0] {
        ValueBound(a[1..]);
        LeadingDigitDecides(da, db, p, Value(a[1..]), Value(b[1..]));
      } else {
        ValueBound(b[1..]);
        LeadingDigitDecides(db, da, p, Value(b[1..]), Value(a[1..]));
      }
    }
  }
}
