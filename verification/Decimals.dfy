/** Decimal digit strings and the numbers they stand for. */
module Decimals {
  import opened Words

  function Pow10(n: nat): (p: nat)
    ensures p > 0
  {
    if n == 0 then 1 else 10 * Pow10(n - 1)
  }

  predicate IsDigit(c: char) {
    '0' <= c <= '9'
  }

  /** `*end - czero`, for any character. */
  function DigitValue(c: char): int {
    c as int - '0' as int
  }

  function DigitChar(d: nat): (c: char)
    requires d < 10
    ensures IsDigit(c) && DigitValue(c) == d
  {
    ('0' as int + d) as char
  }

  lemma DigitCharIs(d: nat)
    requires d < 10
    ensures DigitChar(d) == "0123456789"[d]
  {
  }

  predicate AllDigits(s: string) {
    forall i :: 0 <= i < |s| ==> IsDigit(s[i])
  }

  /** The value of a digit string by positions: leading zeros do not matter. */
  function Value(s: string): (v: nat)
    requires AllDigits(s)
  {
    if s == [] then 0 else DigitValue(s[0]) * Pow10(|s| - 1) + Value(s[1..])
  }

  /** The shortest decimal representation. */
  function Digits(n: nat): (s: string)
    ensures s != [] && AllDigits(s)
  {
    if n < 10 then [DigitChar(n)] else Digits(n / 10) + [DigitChar(n % 10)]
  }

  lemma PrependValue(c: char, s: string)
    requires IsDigit(c) && AllDigits(s)
    ensures AllDigits([c] + s) && Value([c] + s) == DigitValue(c) * Pow10(|s|) + Value(s)
  {
    assert ([c] + s)[1..] == s;
  }

  lemma {:induction false} AppendValue(s: string, c: char)
    requires AllDigits(s) && IsDigit(c)
    ensures AllDigits(s + [c]) && Value(s + [c]) == 10 * Value(s) + DigitValue(c)
  {
    if s == [] {
      PrependValue(c, []);
      assert [] + [c] == [c] + [];
      assert Pow10(0) == 1;
    } else {
      var d, t := s[0], s[1..];
      AppendValue(t, c);
      assert s + [c] == [d] + (t + [c]);
      PrependValue(d, t + [c]);
      ScaleUp(DigitValue(d), |t|);
    }
  }

  lemma ScaleUp(d: int, k: nat)
    ensures d * Pow10(k + 1) == 10 * (d * Pow10(k))
  {
    var p := Pow10(k);
    assert Pow10(k + 1) == 10 * p;
    assert d * (10 * p) == 10 * (d * p);
  }

  lemma DigitScale(d: nat, k: nat)
    requires d <= 9
    ensures 0 <= d * Pow10(k) <= 9 * Pow10(k)
    ensures d >= 1 ==> d * Pow10(k) >= Pow10(k)
  {
    MulMonotone(d, 9, Pow10(k));
    if d >= 1 {
      MulMonotone(1, d, Pow10(k));
    }
  }

  lemma MulMonotone(a: int, b: int, c: nat)
    requires a <= b
    ensures a * c <= b * c
  {
  }

  lemma {:induction false} ValueBound(s: string)
    requires AllDigits(s)
    ensures Value(s) < Pow10(|s|)
  {
    if s != [] {
      ValueBound(s[1..]);
      DigitScale(DigitValue(s[0]), |s| - 1);
    }
  }

  lemma {:induction false} DigitsValue(n: nat)
    ensures Value(Digits(n)) == n
  {
    if n < 10 {
      PrependValue(DigitChar(n), []);
      assert [DigitChar(n)] + [] == [DigitChar(n)];
      assert Pow10(0) == 1;
    } else {
      DigitsValue(n / 10);
      AppendValue(Digits(n / 10), DigitChar(n % 10));
    }
  }

  /** A number below 10^k has at most k digits. */
  lemma {:induction false} DigitsLength(n: nat, k: nat)
    requires n < Pow10(k) && k > 0
    ensures |Digits(n)| <= k
  {
    if n >= 10 {
      assert k > 1 by {
        assert Pow10(1) == 10 * Pow10(0);
      }
      DigitsLength(n / 10, k - 1);
    }
  }

  lemma {:induction false} DigitsLower(n: nat)
    requires n > 0
    ensures Pow10(|Digits(n)| - 1) <= n
  {
    if n < 10 {
      assert Pow10(0) == 1;
    } else {
      DigitsLower(n / 10);
    }
  }

  lemma {:induction false} Pow10Monotone(a: nat, b: nat)
    requires a <= b
    ensures Pow10(a) <= Pow10(b)
    decreases b
  {
    if a < b {
      Pow10Monotone(a, b - 1);
    }
  }

  // ----- numeric_limits<T>::digits10 -----

  /** The number of decimal digits that an unsigned type of `bits` bits can always hold. */
  function Digits10(bits: nat): (k: nat)
    ensures Pow10(k) <= Pow2(bits) < Pow10(k + 1)
  {
    if bits == 0 then assert Pow10(0) == 1 && Pow10(1) == 10 * Pow10(0); 0
    else
      var k := Digits10(bits - 1);
      if Pow10(k + 1) <= Pow2(bits) then
        assert Pow10(k + 2) == 10 * Pow10(k + 1);
        k + 1
      else k
  }
}
