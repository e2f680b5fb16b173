/** Parsing an unsigned integer from the right, in the wrapping arithmetic of its type. */
module LexicalParse {
  import opened Words
  import opened Decimals
  import opened LexicalPrint

  datatype Option<T> = None | Some(value: T)

  // ----- What is parsed -----

  /** `--remained` on a char. */
  function Decrement(r: schar): schar {
    if r == -128 then 127 else r - 1
  }

  /** The entry in use after a separator: the last one repeats. The counter is an unsigned char. */
  function NextEntry(grouping: seq<schar>, current: byte): (c: byte)
    requires current < |grouping|
    ensures c < |grouping|
  {
    if current < |grouping| - 1 then (current as int + 1) % 256 else current
  }

  /**
   The digits the loop reads in s, the separators taken out: `remained` characters are
   taken as they are, then one separator is expected. Where it is missing, the rest is
   read as plain digits. A separator in front of everything is an error.
   */
  function Strip(s: string, remained: schar, current: byte, grouping: seq<schar>, sep: char): (d: Option<string>)
    requires current < |grouping|
    decreases |s|
  {
    if s == [] then Some([])
    else
      var t, c := s[..|s| - 1], s[|s| - 1];
      if remained != 0 then
        match Strip(t, Decrement(remained), current, grouping, sep)
        case Some(d) => Some(d + [c])
        case None => None
      else if c != sep then Some(s)
      else if t == [] then None
      else
        var next := NextEntry(grouping, current);
        Strip(t, grouping[next], next, grouping, sep)
  }

  /** The digits of a whole span. */
  function Ungroup(s: string, loc: Locale): (d: Option<string>) {
    if s == [] then None
    else if loc.Groups() then
      match Strip(s[..|s| - 1], loc.grouping[0] - 1, 0, loc.grouping, loc.sep)
      case Some(d) => Some(d + [s[|s| - 1]])
      case None => None
    else Some(s)
  }

  /**
   The number in s, for an unsigned type with m values: a non-empty run of digits, once
   ungrouped, whose value the type can hold. This is arithmetic without wrapping.
   */
  function ParseUnsigned(s: string, loc: Locale, m: nat): (v: Option<nat>)
    ensures v.Some? ==> v.value < m
  {
    match Ungroup(s, loc)
    case Some(d) => if d != [] && AllDigits(d) && Value(d) < m then Some(Value(d)) else None
    case None => None
  }

  // ----- One digit, with the three overflow tests -----

  /**
   The accumulator after reading the digits d: the value is exact, the multiplier is the
   weight of the first digit modulo m, and the flag tells when that weight does not fit.
   */
  ghost predicate Accumulated(value: nat, multiplier: nat, overflowed: bool, d: string, m: nat) {
    && m >= 10 && d != [] && AllDigits(d)
    && value == Value(d) < m
    && (overflowed <==> Pow10(|d| - 1) >= m)
    && (!overflowed ==> multiplier == Pow10(|d| - 1))
    && multiplier < m
  }

  lemma DivModUnique(x: nat, q: nat, r: nat, d: nat)
    requires r < d && x == q * d + r
    ensures x / d == q && x % d == r
  {
    var q', r' := x / d, x % d;
    assert x == q' * d + r';
    if q < q' {
      MulMonotone(q + 1, q', d);
    } else if q' < q {
      MulMonotone(q' + 1, q, d);
    }
  }

  /** `multiplier_10 / 10 != multiplier` holds exactly when the product wraps. */
  lemma MultiplierTest(multiplier: nat, m: nat)
    requires multiplier < m
    ensures (multiplier * 10 % m) / 10 != multiplier <==> multiplier * 10 >= m
    ensures multiplier * 10 < m ==> multiplier * 10 % m == multiplier * 10
  {
    ProductTest(multiplier, 10, m);
  }

  lemma ModBelow(x: nat, m: nat)
    requires 0 < m <= x
    ensures x % m <= x - m
  {
    var q := x / m;
    assert x == q * m + x % m;
    assert q >= 1;
    MulMonotone(1, q, m);
  }

  /** `new_sub_value / dig_value != multiplier_10` holds exactly when the product wraps. */
  lemma ProductTest(weight: nat, dig: nat, m: nat)
    requires dig > 0 && m > 0
    ensures (weight * dig % m) / dig != weight <==> weight * dig >= m
    ensures weight * dig < m ==> weight * dig % m == weight * dig
  {
    ProductTestOf(weight, dig, m, weight * dig);
  }

  lemma ProductTestOf(weight: nat, dig: nat, m: nat, x: nat)
    requires dig > 0 && m > 0 && x == weight * dig
    ensures (x % m) / dig != weight <==> x >= m
    ensures x < m ==> x % m == x
  {
    if x >= m {
      ModBelow(x, m);
      var r := x % m;
      assert r == (r / dig) * dig + r % dig;
      assert r / dig != weight;
    } else {
      SmallMod(x, m);
      DivModUnique(x, weight, 0, dig);
    }
  }

  lemma SmallMod(x: nat, m: nat)
    requires x < m
    ensures x % m == x
  {
  }

  /** What the flag and the wrapped weight mean after the next multiplication by ten. */
  lemma NextWeight(value: nat, multiplier: nat, overflowed: bool, d: string, m: nat)
    requires Accumulated(value, multiplier, overflowed, d, m)
    ensures var weight := multiplier * 10 % m;
      var flag := overflowed || weight / 10 != multiplier;
      (flag <==> Pow10(|d|) >= m) && (!flag ==> weight == Pow10(|d|))
  {
    MultiplierTest(multiplier, m);
    assert Pow10(|d|) == 10 * Pow10(|d| - 1);
  }

  /** The three tests reject a digit exactly when the sum does not fit. */
  lemma TestsExact(value: nat, weight: nat, flag: bool, p: nat, dig: nat, m: nat)
    requires value < m && p > 0 && dig < 10 && weight < m
    requires (flag <==> p >= m) && (!flag ==> weight == p)
    ensures var sub := weight * dig % m;
      (dig != 0 && sub / dig != weight) || m - 1 - sub < value || (flag && dig != 0) <==> dig * p + value >= m
    ensures dig * p + value < m ==> (value + weight * dig % m) % m == dig * p + value
  {
    if dig != 0 {
      MulMonotone(1, dig, p);
      ProductTest(weight, dig, m);
    }
    SumExact(value, weight * dig, weight * dig % m, dig * p, flag, dig, m);
  }

  /** The same over named products: x is what the machine multiplies, y what it should. */
  lemma SumExact(value: nat, x: nat, sub: nat, y: nat, flag: bool, dig: nat, m: nat)
    requires value < m && sub == x % m
    requires dig == 0 ==> x == 0 && y == 0
    requires dig != 0 ==> if flag then y >= m else x == y
    ensures (dig != 0 && x >= m) || m - 1 - sub < value || (flag && dig != 0) <==> y + value >= m
    ensures y + value < m ==> (value + sub) % m == y + value
  {
    if x < m {
      SmallMod(x, m);
    }
    if y + value < m {
      SmallMod(y + value, m);
    }
  }

  /** One turn of either loop: it goes on exactly when the longer digit string still fits. */
  method AddDigit(c: char, value: nat, multiplier: nat, overflowed: bool, m: nat, ghost d: string)
    returns (ok: bool, value': nat, multiplier': nat, overflowed': bool)
    requires Accumulated(value, multiplier, overflowed, d, m)
    ensures ok <==> AllDigits([c] + d) && Value([c] + d) < m
    ensures ok ==> Accumulated(value', multiplier', overflowed', [c] + d, m)
  {
    value', multiplier', overflowed' := value, multiplier, overflowed;
    var multiplier10 := multiplier * 10 % m;
    if multiplier10 / 10 != multiplier {
      overflowed' := true;
    }
    var digValue := DigitValue(c) % m;
    var newSubValue := multiplier10 * digValue % m;
    NextWeight(value, multiplier, overflowed, d, m);
    PrependDigit(c, d, m);
    if IsDigit(c) {
      TestsExact(value, multiplier10, overflowed', Pow10(|d|), digValue, m);
    }
    if !IsDigit(c)
      || (digValue != 0 && newSubValue / digValue != multiplier10)
      || m - 1 - newSubValue < value
      || (overflowed' && digValue != 0)
    {
      return false, value', multiplier', overflowed';
    }
    value' := (value + newSubValue) % m;
    multiplier' := multiplier * 10 % m;
    ok := true;
  }

  lemma PrependDigit(c: char, d: string, m: nat)
    requires AllDigits(d) && m >= 10
    ensures AllDigits([c] + d) <==> IsDigit(c)
    ensures IsDigit(c) ==> DigitValue(c) % m == DigitValue(c) && Value([c] + d) == DigitValue(c) * Pow10(|d|) + Value(d)
  {
    assert ([c] + d)[0] == c;
    if IsDigit(c) {
      SmallMod(DigitValue(c), m);
      PrependValue(c, d);
    }
  }

  // ----- lcast_ret_unsigned -----

  /** Digits in front never make a failed suffix good again. */
  lemma {:induction false} LongerFails(x: string, d: string, m: nat)
    requires AllDigits(x + d) && Value(x + d) < m
    ensures AllDigits(d) && Value(d) < m
  {
    assert forall i :: 0 <= i < |d| ==> (x + d)[|x| + i] == d[i];
    if x == [] {
      assert x + d == d;
    } else {
      assert (x + d)[1..] == x[1..] + d;
      DigitScale(DigitValue(x[0]), |x + d| - 1);
      LongerFails(x[1..], d, m);
    }
  }

  /** The plain loop reads s[..end0 + 1] in front of the digits d. */
  method PlainLoop(s: string, end0: int, value0: nat, multiplier0: nat, overflowed0: bool, m: nat, ghost d0: string)
    returns (ok: bool, value: nat)
    requires -1 <= end0 < |s|
    requires Accumulated(value0, multiplier0, overflowed0, d0, m)
    ensures ok <==> AllDigits(s[..end0 + 1] + d0) && Value(s[..end0 + 1] + d0) < m
    ensures ok ==> value == Value(s[..end0 + 1] + d0)
  {
    ghost var all, d := s[..end0 + 1] + d0, d0;
    var end, multiplier, overflowed := end0, multiplier0, overflowed0;
    value := value0;
    while 0 <= end
      invariant -1 <= end < |s|
      invariant Accumulated(value, multiplier, overflowed, d, m)
      invariant s[..end + 1] + d == all
    {
      MoveLeft(s, end, d);
      ok, value, multiplier, overflowed := AddDigit(s[end], value, multiplier, overflowed, m, d);
      d := [s[end]] + d;
      end := end - 1;
      if !ok {
        if AllDigits(all) && Value(all) < m {
          LongerFails(s[..end + 1], d, m);
        }
        return;
      }
    }
    assert all == d;
    ok := true;
  }

  lemma MoveLeft(s: string, end: int, d: string)
    requires 0 <= end < |s|
    ensures s[..end + 1] + d == s[..end] + ([s[end]] + d)
  {
  }

  /** The digits found so far go to the right of those still to be found. */
  function Before(o: Option<string>, d: string): Option<string> {
    match o
    case Some(x) => Some(x + d)
    case None => None
  }

  /** What the span will turn out to be, from the state of the grouped loop. */
  ghost function Outlook(s: string, end: int, remained: schar, current: byte, grouping: seq<schar>, sep: char,
                         d: string): Option<string>
    requires -1 <= end < |s| && current < |grouping|
  {
    Before(Strip(s[..end + 1], remained, current, grouping, sep), d)
  }

  lemma OutlookDigit(s: string, end: int, remained: schar, current: byte, grouping: seq<schar>, sep: char, d: string)
    requires 0 <= end < |s| && current < |grouping| && remained != 0
    ensures Outlook(s, end, remained, current, grouping, sep, d)
         == Outlook(s, end - 1, Decrement(remained), current, grouping, sep, [s[end]] + d)
  {
    var t := s[..end + 1];
    assert t[..|t| - 1] == s[..end];
    match Strip(s[..end], Decrement(remained), current, grouping, sep)
    case Some(x) => assert (x + [s[end]]) + d == x + ([s[end]] + d);
    case None =>
  }

  lemma OutlookSeparator(s: string, end: int, current: byte, grouping: seq<schar>, sep: char, d: string)
    requires 0 <= end < |s| && current < |grouping|
    ensures s[end] != sep ==> Outlook(s, end, 0, current, grouping, sep, d) == Some(s[..end + 1] + d)
    ensures s[end] == sep && end == 0 ==> Outlook(s, end, 0, current, grouping, sep, d) == None
    ensures s[end] == sep && end > 0 ==>
      var next := NextEntry(grouping, current);
      Outlook(s, end, 0, current, grouping, sep, d) == Outlook(s, end - 1, grouping[next], next, grouping, sep, d)
  {
    var t := s[..end + 1];
    assert t[..|t| - 1] == s[..end];
  }

  lemma OutlookEnd(s: string, remained: schar, current: byte, grouping: seq<schar>, sep: char, d: string)
    requires current < |grouping|
    ensures Outlook(s, -1, remained, current, grouping, sep, d) == Some(d)
  {
    assert s[..0] == [] && [] + d == d;
  }

  /** No matter what lies to the left, a suffix that failed cannot be parsed. */
  lemma OutlookFails(o: Option<string>, d: string, m: nat)
    requires !(AllDigits(d) && Value(d) < m)
    ensures Before(o, d).Some? ==> !(AllDigits(Before(o, d).value) && Value(Before(o, d).value) < m)
  {
    match o
    case Some(x) =>
      if AllDigits(x + d) && Value(x + d) < m {
        LongerFails(x, d, m);
      }
    case None =>
  }

  datatype Outcome = Done(ok: bool, value: nat) | Fallback(end: int, value: nat, multiplier: nat, overflowed: bool)

  /** The grouped loop; `Fallback` is its `break`, with the rest left to the plain loop. */
  method GroupedLoop(s: string, grouping: seq<schar>, sep: char, end0: int, value0: nat, m: nat, ghost d0: string)
    returns (out: Outcome, ghost d: string)
    requires -1 <= end0 < |s| && grouping != [] && grouping[0] > 0
    requires Accumulated(value0, 1, false, d0, m)
    ensures var o := Outlook(s, end0, grouping[0] - 1, 0, grouping, sep, d0);
      match out
      case Done(ok, v) =>
        && (ok <==> o.Some? && AllDigits(o.value) && Value(o.value) < m)
        && (ok ==> v == Value(o.value))
      case Fallback(end, v, mu, ov) =>
        -1 <= end < |s| && Accumulated(v, mu, ov, d, m) && o == Some(s[..end + 1] + d)
  {
    ghost var o := Outlook(s, end0, grouping[0] - 1, 0, grouping, sep, d0);
    var currentGrouping: byte := 0;
    var remained: schar := grouping[0] - 1;
    var end, value, multiplier, overflowed := end0, value0, 1, false;
    d := d0;
    while end >= 0
      invariant -1 <= end < |s| && currentGrouping < |grouping|
      invariant Accumulated(value, multiplier, overflowed, d, m)
      invariant Outlook(s, end, remained, currentGrouping, grouping, sep, d) == o
    {
      if remained != 0 {
        OutlookDigit(s, end, remained, currentGrouping, grouping, sep, d);
        var ok: bool;
        ok, value, multiplier, overflowed := AddDigit(s[end], value, multiplier, overflowed, m, d);
        d := [s[end]] + d;
        remained := if remained == -128 then 127 else remained - 1;
        end := end - 1;
        if !ok {
          OutlookFails(Strip(s[..end + 1], remained, currentGrouping, grouping, sep), d, m);
          return Done(false, value), d;
        }
      } else {
        OutlookSeparator(s, end, currentGrouping, grouping, sep, d);
        if s[end] != sep {
          return Fallback(end, value, multiplier, overflowed), d;
        }
        if end == 0 {
          return Done(false, value), d;
        }
        if currentGrouping < |grouping| - 1 {
          currentGrouping := (currentGrouping as int + 1) % 256;
        }
        remained := grouping[currentGrouping];
        end := end - 1;
      }
    }
    OutlookEnd(s, remained, currentGrouping, grouping, sep, d);
    return Done(true, value), d;
  }

  /** Right to left, in the arithmetic of an unsigned type of m values. */
  method LcastRetUnsigned(s: string, loc: Locale, m: nat) returns (ok: bool, value: nat)
    requires m >= 10
    ensures ok <==> ParseUnsigned(s, loc, m).Some?
    ensures ok ==> value == ParseUnsigned(s, loc, m).value
    ensures loc == Classic || loc.grouping == [] || loc.grouping[0] <= 0 ==>
      (ok <==> s != [] && AllDigits(s) && Value(s) < m) && (ok ==> value == Value(s))
  {
    var end := |s| - 1;
    if 0 > end || !IsDigit(s[end]) {
      LastDigit(s, loc);
      return false, 0;
    }
    value := DigitValue(s[end]);
    ghost var d := [s[end]];
    FirstDigit(s[end], m);
    end := end - 1;
    assert s[..end + 1] == s[..|s| - 1];
    if loc.Groups() {
      var out;
      out, d := GroupedLoop(s, loc.grouping, loc.sep, end, value, m, d);
      match out
      case Done(ok', value') =>
        ok, value := ok', value';
      case Fallback(end', value', multiplier, overflowed) =>
        ok, value := PlainLoop(s, end', value', multiplier, overflowed, m, d);
        assert s[..end' + 1] + d != [];
    } else {
      ok, value := PlainLoop(s, end, value, 1, false, m, d);
      assert s[..end + 1] + d == s;
    }
  }

  lemma FirstDigit(c: char, m: nat)
    requires IsDigit(c) && m >= 10
    ensures Accumulated(DigitValue(c), 1, false, [c], m)
  {
    PrependValue(c, []);
    assert [c] + [] == [c];
    assert Pow10(0) == 1;
  }

  lemma LastDigit(s: string, loc: Locale)
    requires s == [] || !IsDigit(s[|s| - 1])
    ensures forall m :: ParseUnsigned(s, loc, m) == None
  {
    match Ungroup(s, loc)
    case Some(d) => assert d[|d| - 1] == s[|s| - 1];
    case None =>
  }

  // ----- Text without separators -----

  /** Where no separator stands, none is taken out and none is missed: the grouping is not checked. */
  lemma {:induction false} StripNothing(s: string, remained: schar, current: byte, grouping: seq<schar>, sep: char)
    requires current < |grouping| && sep !in s
    ensures Strip(s, remained, current, grouping, sep) == Some(s)
    decreases |s|
  {
    if s != [] && remained != 0 {
      StripNothing(s[..|s| - 1], Decrement(remained), current, grouping, sep);
      StripTakes(s, s, remained, current, grouping, sep);
    }
  }

  /** A character that is taken as it is. */
  lemma StripTakes(s: string, d: string, remained: schar, current: byte, grouping: seq<schar>, sep: char)
    requires current < |grouping| && remained != 0 && s != [] && d != [] && s[|s| - 1] == d[|d| - 1]
    requires Strip(s[..|s| - 1], Decrement(remained), current, grouping, sep) == Some(d[..|d| - 1])
    ensures Strip(s, remained, current, grouping, sep) == Some(d)
  {
    PutBack(d);
  }

  lemma PutBack(s: string)
    requires s != []
    ensures s[..|s| - 1] + [s[|s| - 1]] == s
  {
  }

  lemma UngroupNothing(s: string, loc: Locale)
    requires s != [] && (loc.Groups() ==> loc.sep !in s)
    ensures Ungroup(s, loc) == Some(s)
  {
    if loc.Groups() {
      StripNothing(s[..|s| - 1], loc.grouping[0] - 1, 0, loc.grouping, loc.sep);
      PutBack(s);
    }
  }

  /** Text without separators is read, or refused, in every locale as in the classic one. */
  lemma NoSeparators(s: string, loc: Locale, m: nat)
    requires loc.Groups() ==> loc.sep !in s
    ensures ParseUnsigned(s, loc, m) == ParseUnsigned(s, Classic, m)
  {
    if s != [] {
      UngroupNothing(s, loc);
      UngroupNothing(s, Classic);
    }
  }

  /** So what the classic locale prints can be read in any locale whose separator is no digit. */
  lemma ClassicTextReads(n: nat, loc: Locale, m: nat)
    requires n < m && (loc.Groups() ==> !IsDigit(loc.sep))
    ensures ParseUnsigned(PutUnsigned(n, Classic), loc, m) == Some(n)
  {
    DigitsValue(n);
    NoSeparators(Digits(n), loc, m);
  }
}
