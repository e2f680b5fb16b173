/**
 The mantissa loop of `lcast_ret_float`, in the classic locale: decimal digits are packed
 into an unsigned integer until it is full; a power of ten keeps account of the rest.
 */
module LexicalMantissa {
  import opened Decimals
  import opened LexicalParse

  // ----- What the loop reads -----

  /** The length of the longest run of digits in front. */
  function DigitRun(s: string): (n: nat)
    ensures n <= |s| && AllDigits(s[..n])
    ensures n < |s| ==> !IsDigit(s[n])
  {
    if s == [] || !IsDigit(s[0]) then 0
    else
      var n := DigitRun(s[1..]);
      assert forall i :: 0 <= i < n ==> s[1..][..n][i] == s[i + 1];
      n + 1
  }

  predicate IsExponentMark(c: char) {
    c == 'e' || c == 'E'
  }

  /** The digits before and after the decimal point, and where reading stops. */
  datatype Span = Span(whole: string, fraction: string, end: nat)

  /**
   Digits, perhaps a decimal point and more digits, up to the end or an exponent mark.
   Nothing but a point is an error, and so is an exponent mark in front; a point followed
   directly by an exponent mark passes.
   */
  function ReadSpan(s: string, point: char): (r: Option<Span>)
    ensures r.Some? ==> AllDigits(r.value.whole) && AllDigits(r.value.fraction)
  {
    var i := DigitRun(s);
    if i == |s| then Some(Span(s[..i], [], i))
    else if s[i] == point then
      var j := DigitRun(s[i + 1..]);
      var end := i + 1 + j;
      if i == 0 && |s| == 1 then None
      else if end == |s| || IsExponentMark(s[end]) then Some(Span(s[..i], s[i + 1..][..j], end))
      else None
    else if IsExponentMark(s[i]) && i > 0 then Some(Span(s[..i], [], i))
    else None
  }

  lemma {:induction false} RunIs(s: string, k: nat)
    requires k <= |s| && AllDigits(s[..k]) && (k < |s| ==> !IsDigit(s[k]))
    ensures DigitRun(s) == k
  {
    if k > 0 {
      assert s[..k][0] == s[0];
      assert forall i :: 0 <= i < k - 1 ==> s[1..][i] == s[..k][i + 1];
      RunIs(s[1..], k - 1);
    }
  }

  /** The text in front of the stop: digits, or digits around a decimal point. */
  ghost predicate Spelled(text: string, point: char, r: Span, hasPoint: bool) {
    && AllDigits(r.whole) && AllDigits(r.fraction)
    && (hasPoint ==> text == r.whole + ([point] + r.fraction))
    && (!hasPoint ==> text == r.whole && r.fraction == [])
  }

  /**
   Exactly such text is accepted, up to the end or the first exponent mark. A mark needs a
   digit or a point in front of it, and a point must not stand alone.
   */
  lemma SpanExact(s: string, point: char, r: Span)
    ensures ReadSpan(s, point) == Some(r)
       <==> (&& r.end <= |s| && (r.end == |s| || s[r.end] == 'e' || s[r.end] == 'E')
             && (|| (Spelled(s[..r.end], point, r, false) && (r.end < |s| ==> r.end > 0 && s[r.end] != point))
                 || (Spelled(s[..r.end], point, r, true) && !IsDigit(point) && |s| > 1)))
  {
    if ReadSpan(s, point) == Some(r) {
      ReadSpanSpelled(s, point, r);
    } else if r.end <= |s| && (r.end == |s| || IsExponentMark(s[r.end])) {
      if Spelled(s[..r.end], point, r, false) && (r.end < |s| ==> r.end > 0 && s[r.end] != point) {
        RunIs(s, r.end);
        assert false;
      }
      if Spelled(s[..r.end], point, r, true) && !IsDigit(point) && |s| > 1 {
        SpelledRead(s, point, r);
        assert false;
      }
    }
  }

  lemma ReadSpanSpelled(s: string, point: char, r: Span)
    requires ReadSpan(s, point) == Some(r)
    ensures r.end <= |s| && (r.end == |s| || IsExponentMark(s[r.end]))
    ensures (Spelled(s[..r.end], point, r, false) && (r.end < |s| ==> r.end > 0 && s[r.end] != point))
      || (Spelled(s[..r.end], point, r, true) && !IsDigit(point) && |s| > 1)
  {
    var i := DigitRun(s);
    if i < |s| && s[i] == point {
      var j := DigitRun(s[i + 1..]);
      assert s[..i + 1 + j] == s[..i] + ([s[i]] + s[i + 1..][..j]);
    }
  }

  lemma SpelledRead(s: string, point: char, r: Span)
    requires r.end <= |s| && (r.end == |s| || IsExponentMark(s[r.end]))
    requires Spelled(s[..r.end], point, r, true) && !IsDigit(point) && |s| > 1
    ensures ReadSpan(s, point) == Some(r)
  {
    var i, j := |r.whole|, |r.fraction|;
    var text := r.whole + ([point] + r.fraction);
    assert r.end == i + 1 + j;
    assert s[i] == text[i] == point;
    assert s[..i] == text[..i] == r.whole;
    RunIs(s, i);
    assert s[i + 1..][..j] == text[i + 1..] == r.fraction;
    RunIs(s[i + 1..], j);
  }

  // ----- What the mantissa holds -----

  /**
   The mantissa is the value of the first `kept` digits; it is full exactly when digits
   have been left out, and then the next one would not have fitted.
   */
  ghost predicate Packed(digits: string, kept: nat, mantissa: nat, full: bool, m: nat) {
    && kept <= |digits| && AllDigits(digits) && AllDigits(digits[..kept])
    && mantissa == Value(digits[..kept]) < m
    && (full <==> kept < |digits|)
    && (full ==> AllDigits(digits[..kept + 1]) && Value(digits[..kept + 1]) >= m)
  }

  /** Either form of the overflow test says whether the digit fits. */
  lemma FitsTest(mantissa: nat, dig: nat, m: nat)
    requires mantissa < m && dig < 10 && m >= 10
    ensures (mantissa * 10 % m) / 10 == mantissa && m - 1 - dig >= mantissa * 10 % m <==> 10 * mantissa + dig < m
    ensures 10 * mantissa + dig < m ==> mantissa * 10 % m == 10 * mantissa
  {
    MultiplierTest(mantissa, m);
  }

  lemma Keep(digits: string, mantissa: nat, m: nat, c: char)
    requires Packed(digits, |digits|, mantissa, false, m) && IsDigit(c)
    requires 10 * mantissa + DigitValue(c) < m
    ensures Packed(digits + [c], |digits| + 1, 10 * mantissa + DigitValue(c), false, m)
  {
    assert digits[..|digits|] == digits;
    assert (digits + [c])[..|digits| + 1] == digits + [c];
    AppendValue(digits, c);
  }

  lemma LeaveOut(digits: string, kept: nat, mantissa: nat, full: bool, m: nat, c: char)
    requires Packed(digits, kept, mantissa, full, m) && IsDigit(c)
    requires full || 10 * mantissa + DigitValue(c) >= m
    ensures Packed(digits + [c], kept, mantissa, true, m)
  {
    var all := digits + [c];
    assert all[..kept] == digits[..kept];
    if full {
      assert all[..kept + 1] == digits[..kept + 1];
    } else {
      assert digits[..kept] == digits && all[..kept + 1] == all;
      AppendValue(digits, c);
    }
  }

  // ----- The loop -----

  /**
   Reads the span s (what follows the sign). `pow` is the power of ten the mantissa still
   has to be multiplied with; its C++ type is int, and it is taken as unbounded.
   */
  method MantissaLoop(s: string, point: char, m: nat)
    returns (ok: bool, pos: nat, mantissa: nat, pow: int, full: bool, ghost kept: nat)
    requires m >= 10
    ensures ok <==> ReadSpan(s, point).Some?
    ensures ok ==>
      var r := ReadSpan(s, point).value;
      && pos == r.end
      && Packed(r.whole + r.fraction, kept, mantissa, full, m)
      && pow == |r.whole + r.fraction| - kept - |r.fraction|
  {
    pos, mantissa, pow, full, kept := 0, 0, 0, false, 0;
    var foundDecimal, foundNumberBeforeExp := false, false;
    ghost var i := DigitRun(s);
    ghost var digits, fraction: nat := [], 0;
    ok := true;
    while pos != |s|
      invariant pos <= |s|
      invariant !foundDecimal ==> pos <= i && digits == s[..pos] && fraction == 0 && foundNumberBeforeExp == (pos > 0)
      invariant foundDecimal ==> AtFraction(s, point, i, pos, digits, fraction)
      invariant Packed(digits, kept, mantissa, full, m)
      invariant pow == |digits| - kept - fraction
    {
      var c := s[pos];
      if foundDecimal {
        if IsExponentMark(c) {
          break;
        }
        FractionNext(s, point, i, pos, digits, fraction);
        if !IsDigit(c) {
          return false, pos, mantissa, pow, full, kept;
        }
        mantissa, pow, full, kept := TakeFraction(c, mantissa, pow, full, m, digits, kept);
        digits, fraction := digits + [c], fraction + 1;
        foundNumberBeforeExp := foundNumberBeforeExp || !full;
      } else {
        WholeNext(s, pos);
        if IsDigit(c) {
          PrefixNext(s, pos);
          mantissa, pow, full, kept := TakeWhole(c, mantissa, pow, full, m, digits, kept);
          digits := s[..pos + 1];
          foundNumberBeforeExp := true;
        } else if c == point {
          foundDecimal := true;
          if !foundNumberBeforeExp && pos + 1 == |s| {
            return false, pos, mantissa, pow, full, kept;
          }
          PointNext(s, pos);
        } else if IsExponentMark(c) && foundNumberBeforeExp {
          break;
        } else {
          return false, pos, mantissa, pow, full, kept;
        }
      }
      pos := pos + 1;
    }
    if foundDecimal {
      FractionDone(s, point, i, pos, digits, fraction);
    } else {
      WholeDone(s, point, pos);
    }
  }

  /** The body for a digit behind the decimal point: a digit that does not fit leaves the power alone. */
  method TakeFraction(c: char, mantissa: nat, pow: int, full: bool, m: nat, ghost digits: string, ghost kept: nat)
    returns (mantissa': nat, pow': int, full': bool, ghost kept': nat)
    requires m >= 10 && IsDigit(c) && Packed(digits, kept, mantissa, full, m)
    ensures Packed(digits + [c], kept', mantissa', full', m)
    ensures pow' == pow - (kept' - kept)
    ensures var fits := !full && 10 * mantissa + DigitValue(c) < m;
      && full' == !fits && pow' == (if fits then pow - 1 else pow)
      && mantissa' == (if fits then 10 * mantissa + DigitValue(c) else mantissa)
  {
    mantissa', pow', full', kept' := mantissa, pow, full, kept;
    var tmpMantissa := mantissa * 10 % m;
    FitsTest(mantissa, DigitValue(c), m);
    if full || tmpMantissa / 10 != mantissa || m - 1 - DigitValue(c) < tmpMantissa {
      LeaveOut(digits, kept, mantissa, full, m, c);
      full' := true;
    } else {
      Keep(digits, mantissa, m, c);
      SmallMod(10 * mantissa + DigitValue(c), m);
      pow' := pow - 1;
      mantissa' := tmpMantissa;
      mantissa' := (mantissa' + DigitValue(c)) % m;
      kept' := kept + 1;
    }
  }

  /** The body for a digit before the decimal point: a digit that does not fit counts in the power. */
  method TakeWhole(c: char, mantissa: nat, pow: int, full: bool, m: nat, ghost digits: string, ghost kept: nat)
    returns (mantissa': nat, pow': int, full': bool, ghost kept': nat)
    requires m >= 10 && IsDigit(c) && Packed(digits, kept, mantissa, full, m)
    ensures Packed(digits + [c], kept', mantissa', full', m)
    ensures pow' == pow + 1 - (kept' - kept)
    ensures var fits := !full && 10 * mantissa + DigitValue(c) < m;
      && full' == !fits && pow' == (if fits then pow else pow + 1)
      && mantissa' == (if fits then 10 * mantissa + DigitValue(c) else mantissa)
  {
    mantissa', pow', full', kept' := mantissa, pow, full, kept;
    var tmpMantissa := mantissa * 10 % m;
    FitsTest(mantissa, DigitValue(c), m);
    if !full && tmpMantissa / 10 == mantissa && m - 1 - DigitValue(c) >= tmpMantissa {
      Keep(digits, mantissa, m, c);
      SmallMod(10 * mantissa + DigitValue(c), m);
      mantissa' := tmpMantissa;
      mantissa' := (mantissa' + DigitValue(c)) % m;
      kept' := kept + 1;
    } else {
      LeaveOut(digits, kept, mantissa, full, m, c);
      full' := true;
      pow' := pow + 1;
    }
  }

  lemma PrefixNext(s: string, pos: nat)
    requires pos < |s|
    ensures s[..pos] + [s[pos]] == s[..pos + 1]
  {
  }

  lemma PointNext(s: string, pos: nat)
    requires pos < |s|
    ensures s[..pos] + s[pos + 1..][..0] == s[..pos]
  {
  }

  /** Reading is past the decimal point, at `fraction` digits behind it. */
  ghost predicate AtFraction(s: string, point: char, i: nat, pos: nat, digits: string, fraction: nat) {
    && i == DigitRun(s) < |s| && s[i] == point && !(i == 0 && |s| == 1)
    && fraction <= DigitRun(s[i + 1..]) && pos == i + 1 + fraction
    && digits == s[..i] + s[i + 1..][..fraction]
  }

  lemma WholeNext(s: string, pos: nat)
    requires pos <= DigitRun(s) && pos < |s|
    ensures IsDigit(s[pos]) <==> pos < DigitRun(s)
  {
    var n := DigitRun(s);
    if pos < n {
      assert s[..n][pos] == s[pos];
    }
  }

  lemma FractionNext(s: string, point: char, i: nat, pos: nat, digits: string, fraction: nat)
    requires AtFraction(s, point, i, pos, digits, fraction) && pos < |s|
    ensures IsDigit(s[pos]) <==> fraction < DigitRun(s[i + 1..])
    ensures IsDigit(s[pos]) ==> AtFraction(s, point, i, pos + 1, digits + [s[pos]], fraction + 1)
    ensures !IsDigit(s[pos]) && !IsExponentMark(s[pos]) ==> ReadSpan(s, point) == None
  {
    var t := s[i + 1..];
    assert t[fraction] == s[pos];
    WholeNext(t, fraction);
    if IsDigit(s[pos]) {
      assert t[..fraction + 1] == t[..fraction] + [s[pos]];
    }
  }

  lemma FractionDone(s: string, point: char, i: nat, pos: nat, digits: string, fraction: nat)
    requires AtFraction(s, point, i, pos, digits, fraction)
    requires pos == |s| || IsExponentMark(s[pos])
    ensures ReadSpan(s, point) == Some(Span(s[..i], s[i + 1..][..fraction], pos))
    ensures digits == s[..i] + s[i + 1..][..fraction]
  {
    if pos < |s| {
      FractionNext(s, point, i, pos, digits, fraction);
    }
  }

  lemma WholeDone(s: string, point: char, pos: nat)
    requires pos <= DigitRun(s)
    requires pos == |s| || (IsExponentMark(s[pos]) && s[pos] != point && pos > 0)
    ensures ReadSpan(s, point) == Some(Span(s[..pos], [], pos))
    ensures s[..pos] + [] == s[..pos]
  {
    if pos < |s| {
      WholeNext(s, pos);
    }
  }

  // ----- What the result means -----

  /** 10^z for any integer z. */
  function Power(z: int): (r: real)
    ensures r > 0.0
    decreases if z < 0 then -z else z
  {
    if z == 0 then 1.0 else if z > 0 then 10.0 * Power(z - 1) else Power(z + 1) / 10.0
  }

  // Products of several variables are kept inside predicates, so that the solver meets
  // them only where they are proved.

  /** v * p == n */
  ghost predicate Scales(v: real, p: nat, n: nat) {
    v * p as real == n as real
  }

  /** mantissa * unit <= v < (mantissa + 1) * unit, with equality below when exact. */
  ghost predicate Brackets(mantissa: nat, unit: real, v: real, exact: bool) {
    && mantissa as real * unit <= v < (mantissa + 1) as real * unit
    && (exact ==> v == mantissa as real * unit)
  }

  /** The same over the integers. */
  ghost predicate BracketsNat(mantissa: nat, weight: nat, n: nat, exact: bool) {
    && mantissa * weight <= n < (mantissa + 1) * weight
    && (exact ==> n == mantissa * weight)
  }

  function Times(n: nat, u: real): real {
    n as real * u
  }

  /** The number that the digits of a span spell: all of them as an integer, scaled by the length of the fraction. */
  function SpanValue(r: Span): real
    requires AllDigits(r.whole + r.fraction)
  {
    Times(Value(r.whole + r.fraction), Power(-|r.fraction|))
  }

  lemma {:induction false} SplitValue(a: string, b: string)
    requires AllDigits(a) && AllDigits(b)
    ensures AllDigits(a + b) && Value(a + b) == Value(a) * Pow10(|b|) + Value(b)
    decreases |b|
  {
    if b == [] {
      assert a + b == a;
      assert Pow10(0) == 1;
    } else {
      var t, c := b[..|b| - 1], b[|b| - 1];
      SplitValue(a, t);
      AppendValue(a + t, c);
      AppendValue(t, c);
      assert b == t + [c] && a + b == (a + t) + [c];
      ScaleUp(Value(a), |t|);
    }
  }

  lemma {:induction false} PowerAdd(k: nat, f: nat)
    ensures Scales(Power(k - f), Pow10(f), Pow10(k))
    decreases f
  {
    if f == 0 {
      PowerOfNat(k);
      ScaleOne(Power(k), Pow10(k));
      assert Pow10(0) == 1;
    } else {
      PowerAdd(k, f - 1);
      PowerNext(k - f);
      ScaleTen(Power(k - f), Power(k - (f - 1)), Pow10(f - 1), Pow10(k));
    }
  }

  lemma PowerNext(z: int)
    ensures Power(z + 1) == 10.0 * Power(z)
  {
  }

  lemma ScaleOne(v: real, n: nat)
    requires v == n as real
    ensures Scales(v, 1, n)
  {
  }

  lemma ScaleTen(u: real, u': real, p: nat, n: nat)
    requires u' == 10.0 * u && Scales(u', p, n)
    ensures Scales(u, 10 * p, n)
  {
    var q := p as real;
    assert (10 * p) as real == 10.0 * q;
    assert u * (10.0 * q) == (10.0 * u) * q;
  }

  lemma {:induction false} PowerOfNat(k: nat)
    ensures Power(k) == Pow10(k) as real
  {
    if k > 0 {
      PowerOfNat(k - 1);
    }
  }

  lemma CancelLess(x: real, y: real, p: real)
    requires p > 0.0
    ensures x * p < y * p ==> x < y
    ensures x * p == y * p ==> x == y
  {
    if x >= y {
      var d := x - y;
      assert d * p >= 0.0;
      assert x * p == y * p + d * p;
    }
    if x < y {
      var d := y - x;
      assert d * p > 0.0;
      assert y * p == x * p + d * p;
    }
  }

  /** Division of an integer inequality by 10^fraction. */
  lemma Scaled(mantissa: real, a: real, weight: real, p: real, unit: real, v: real)
    requires p > 0.0 && unit * p == weight && v * p == a
    requires mantissa * weight <= a < (mantissa + 1.0) * weight
    ensures mantissa * unit <= v < (mantissa + 1.0) * unit
    ensures a == mantissa * weight ==> v == mantissa * unit
  {
    assert (mantissa * unit) * p == mantissa * weight;
    assert ((mantissa + 1.0) * unit) * p == (mantissa + 1.0) * weight;
    CancelLess(mantissa * unit, v, p);
    CancelLess(v, (mantissa + 1.0) * unit, p);
  }

  lemma SpanValueScaled(r: Span)
    requires AllDigits(r.whole + r.fraction)
    ensures Scales(SpanValue(r), Pow10(|r.fraction|), Value(r.whole + r.fraction))
  {
    PowerAdd(0, |r.fraction|);
    assert Pow10(0) == 1;
    Unscale(Value(r.whole + r.fraction), Power(0 - |r.fraction|), Pow10(|r.fraction|));
  }

  lemma Unscale(n: nat, u: real, p: nat)
    requires Scales(u, p, 1)
    ensures Scales(Times(n, u), p, n)
  {
    assert (n as real * u) * p as real == n as real * (u * p as real);
  }

  lemma RealProduct(a: nat, b: nat)
    ensures (a * b) as real == a as real * b as real
  {
  }

  /** The kept digits and those left out. */
  lemma PackedBounds(digits: string, kept: nat, mantissa: nat, full: bool, m: nat)
    requires Packed(digits, kept, mantissa, full, m)
    ensures BracketsNat(mantissa, Pow10(|digits| - kept), Value(digits), !full)
  {
    var a, b := digits[..kept], digits[kept..];
    assert digits == a + b;
    assert forall i :: 0 <= i < |b| ==> b[i] == digits[kept + i];
    SplitValue(a, b);
    ValueBound(b);
    SumBounds(mantissa, Pow10(|b|), Value(b));
  }

  lemma SumBounds(mantissa: nat, weight: nat, rest: nat)
    requires rest < weight
    ensures BracketsNat(mantissa, weight, mantissa * weight + rest, rest == 0)
  {
  }

  /**
   The mantissa with its power bounds the number from below, the next mantissa from above;
   when nothing was left out it is exact, and otherwise not one more digit would have fitted.
   */
  lemma MantissaBounds(r: Span, kept: nat, mantissa: nat, pow: int, full: bool, m: nat)
    requires Packed(r.whole + r.fraction, kept, mantissa, full, m)
    requires pow == |r.whole + r.fraction| - kept - |r.fraction|
    ensures Brackets(mantissa, Power(pow), SpanValue(r), !full)
    ensures full ==> 10 * mantissa + 9 >= m
  {
    var digits, f := r.whole + r.fraction, |r.fraction|;
    SpanValueScaled(r);
    PackedBounds(digits, kept, mantissa, full, m);
    PowerAdd(|digits| - kept, f);
    ScaledNat(mantissa, Value(digits), Pow10(|digits| - kept), Pow10(f), Power(pow), SpanValue(r), !full);
    if full {
      NextDigit(digits, kept, mantissa, m);
    }
  }

  lemma ScaledNat(mantissa: nat, n: nat, weight: nat, p: nat, unit: real, v: real, exact: bool)
    requires p > 0 && Scales(unit, p, weight) && Scales(v, p, n) && BracketsNat(mantissa, weight, n, exact)
    ensures Brackets(mantissa, unit, v, exact)
  {
    RealProduct(mantissa, weight);
    RealProduct(mantissa + 1, weight);
    Scaled(mantissa as real, n as real, weight as real, p as real, unit, v);
  }

  lemma NextDigit(digits: string, kept: nat, mantissa: nat, m: nat)
    requires Packed(digits, kept, mantissa, true, m)
    ensures 10 * mantissa + 9 >= m
  {
    assert digits[..kept + 1] == digits[..kept] + [digits[kept]];
    AppendValue(digits[..kept], digits[kept]);
  }

  /** The loop and its meaning together. */
  method ReadMantissa(s: string, point: char, m: nat) returns (ok: bool, pos: nat, mantissa: nat, pow: int, full: bool)
    requires m >= 10
    ensures ok <==> ReadSpan(s, point).Some?
    ensures ok ==>
      var r := ReadSpan(s, point).value;
      && pos == r.end && mantissa < m
      && Brackets(mantissa, Power(pow), SpanValue(r), !full)
      && (full ==> 10 * mantissa + 9 >= m)
  {
    ghost var kept;
    ok, pos, mantissa, pow, full, kept := MantissaLoop(s, point, m);
    if ok {
      MantissaBounds(ReadSpan(s, point).value, kept, mantissa, pow, full, m);
    }
  }
}
