/** What is printed is read back: the printer's group counter and the parser's stay in step. */
module LexicalRoundTrip {
  import opened Words
  import opened Decimals
  import opened LexicalPrint
  import opened LexicalParse

  /**
   The number of digits to the right of a group whose size is written as zero, when the
   groups from entry i on lead to one. The printer takes such a group as endless; the
   parser takes it as empty and looks for one more separator.
   */
  function ZeroGroup(grouping: seq<schar>, i: nat): (k: Option<nat>)
    decreases |grouping| - i
  {
    if i >= |grouping| || grouping[i] < 0 then None
    else if grouping[i] == 0 then Some(0)
    else
      match ZeroGroup(grouping, i + 1)
      case Some(k) => Some(grouping[i] as nat + k)
      case None => None
  }

  /** The digit of n with k digits to its right is there and looks like the separator. */
  predicate LooksLike(n: nat, k: nat, sep: char) {
    k < |Digits(n)| && Digits(n)[|Digits(n)| - 1 - k] == sep
  }

  /** The parser takes a digit of n for a separator. Only a separator that is itself a digit can do that. */
  predicate Swallowed(n: nat, loc: Locale) {
    && loc.Groups()
    && match ZeroGroup(loc.grouping, 0)
       case Some(k) => LooksLike(n, k, loc.sep)
       case None => false
  }

  lemma NotSwallowed(n: nat, loc: Locale)
    requires loc.Groups() ==> !IsDigit(loc.sep) || forall i :: 0 <= i < |loc.grouping| ==> loc.grouping[i] != 0
    ensures !Swallowed(n, loc)
  {
    if loc.Groups() {
      NoZeroGroup(loc.grouping, 0);
    }
  }

  lemma {:induction false} NoZeroGroup(grouping: seq<schar>, i: nat)
    ensures (forall j :: 0 <= j < |grouping| ==> grouping[j] != 0) ==> ZeroGroup(grouping, i) == None
    decreases |grouping| - i
  {
    if i < |grouping| {
      NoZeroGroup(grouping, i + 1);
    }
  }

  lemma LooksLikeTail(n: nat, k: nat, sep: char)
    requires k > 0
    ensures LooksLike(n, k, sep) <==> n >= 10 && LooksLike(n / 10, k - 1, sep)
  {
    if n >= 10 {
      assert Digits(n) == Digits(n / 10) + [DigitChar(n % 10)];
    }
  }

  /** A group that outlasts the digits gets no separator. */
  lemma {:induction false} EndlessGroup(n: nat, left: nat, group: nat, last: schar, loc: Locale)
    requires loc.Groups() && last > 0 && |Digits(n)| <= left
    ensures PutGrouped(n, left, group, last, loc) == Digits(n)
  {
    if n >= 10 {
      EndlessGroup(n / 10, left - 1, group, last, loc);
    }
  }

  /** How many characters the parser takes before its counter, a signed char, comes to zero. */
  function Steps(remained: schar): nat
    requires remained != 0
  {
    if remained > 0 then remained as nat else 256 + remained
  }

  lemma {:induction false} StripPlain(s: string, remained: schar, current: byte, grouping: seq<schar>, sep: char)
    requires current < |grouping|
    requires s == [] || (remained != 0 && |s| <= Steps(remained))
    ensures Strip(s, remained, current, grouping, sep) == Some(s)
    decreases |s|
  {
    if s != [] {
      var t := s[..|s| - 1];
      StripPlain(t, Decrement(remained), current, grouping, sep);
      assert t + [s[|s| - 1]] == s;
    }
  }

  lemma {:induction false} StripShorter(s: string, remained: schar, current: byte, grouping: seq<schar>, sep: char)
    requires current < |grouping|
    ensures var d := Strip(s, remained, current, grouping, sep); d.Some? ==> |d.value| <= |s|
    decreases |s|
  {
    if s != [] {
      var t, c := s[..|s| - 1], s[|s| - 1];
      if remained != 0 {
        StripShorter(t, Decrement(remained), current, grouping, sep);
      } else if c == sep && t != [] {
        var next := NextEntry(grouping, current);
        StripShorter(t, grouping[next], next, grouping, sep);
      }
    }
  }

  lemma StripDigit(t: string, c: char, remained: schar, current: byte, grouping: seq<schar>, sep: char)
    requires current < |grouping| && remained != 0
    ensures Strip(t + [c], remained, current, grouping, sep)
         == Before(Strip(t, Decrement(remained), current, grouping, sep), [c])
  {
    assert (t + [c])[..|t + [c]| - 1] == t;
  }

  lemma StripSeparator(t: string, c: char, current: byte, grouping: seq<schar>, sep: char)
    requires current < |grouping|
    ensures c != sep ==> Strip(t + [c], 0, current, grouping, sep) == Some(t + [c])
    ensures c == sep && t == [] ==> Strip(t + [c], 0, current, grouping, sep) == None
    ensures c == sep && t != [] ==>
      var next := NextEntry(grouping, current);
      Strip(t + [c], 0, current, grouping, sep) == Strip(t, grouping[next], next, grouping, sep)
  {
    assert (t + [c])[..|t + [c]| - 1] == t;
  }

  /** The two counters agree: the printer is in group `group`, the parser uses entry `current`. */
  ghost predicate InStep(n: nat, left: schar, group: nat, last: schar, current: byte, loc: Locale) {
    && loc.Groups() && 0 <= left && 0 < last
    && current as nat == (if group < |loc.grouping| then group else |loc.grouping| - 1)
    && last == loc.grouping[current]
    && current as nat + |Digits(n)| + (if left == 0 then 1 else 0) <= CHAR_MAX as nat
  }

  /** A digit of n will be swallowed: `left` digits before the next separator, from group `group` on. */
  ghost predicate Hits(n: nat, left: nat, group: nat, loc: Locale)
    requires loc.Groups()
  {
    var k := ZeroGroup(loc.grouping, group + 1);
    k.Some? && LooksLike(n, left + k.value, loc.sep)
  }

  /** The parser finds all the digits, or too few of them when one is swallowed. */
  ghost predicate Verdict(found: Option<string>, digits: string, swallowed: bool) {
    if swallowed then found.Some? ==> |found.value| < |digits| else found == Some(digits)
  }

  lemma VerdictDigit(found: Option<string>, digits: string, swallowed: bool, c: char)
    requires Verdict(found, digits, swallowed)
    ensures Verdict(Before(found, [c]), digits + [c], swallowed)
  {
  }

  lemma HitsTail(n: nat, left: nat, group: nat, loc: Locale)
    requires loc.Groups() && left > 0
    ensures Hits(n, left, group, loc) <==> n >= 10 && Hits(n / 10, left - 1, group, loc)
  {
    var k := ZeroGroup(loc.grouping, group + 1);
    if k.Some? {
      LooksLikeTail(n, left + k.value, loc.sep);
    }
  }

  /** What is printed from here on comes back. */
  ghost predicate ComesBack(n: nat, left: schar, group: nat, last: schar, current: byte, loc: Locale)
    requires loc.Groups() && last > 0 && 0 <= left && current < |loc.grouping|
  {
    Verdict(Strip(PutGrouped(n, left as nat, group, last, loc), left, current, loc.grouping, loc.sep),
            Digits(n), Hits(n, left as nat, group, loc))
  }

  lemma {:induction false} PrintedComesBack(n: nat, left: schar, group: nat, last: schar, current: byte, loc: Locale)
    requires InStep(n, left, group, last, current, loc)
    ensures ComesBack(n, left, group, last, current, loc)
    decreases n, if left == 0 then 1 else 0, 1
  {
    if left > 0 {
      DigitComesBack(n, left, group, last, current, loc);
    } else {
      SeparatorComesBack(n, group, last, current, loc);
    }
  }

  lemma {:induction false} DigitComesBack(n: nat, left: schar, group: nat, last: schar, current: byte, loc: Locale)
    requires InStep(n, left, group, last, current, loc) && left > 0
    ensures ComesBack(n, left, group, last, current, loc)
    decreases n, 0, 0
  {
    if n >= 10 {
      DigitInStep(n, left, group, last, current, loc);
      PrintedComesBack(n / 10, left - 1, group, last, current, loc);
    }
    ComesBackDigit(n, left, group, last, current, loc);
  }

  lemma DigitInStep(n: nat, left: schar, group: nat, last: schar, current: byte, loc: Locale)
    requires InStep(n, left, group, last, current, loc) && left > 0 && n >= 10
    ensures InStep(n / 10, left - 1, group, last, current, loc)
  {
    assert |Digits(n)| == |Digits(n / 10)| + 1;
  }

  lemma {:induction false} SeparatorComesBack(n: nat, group: nat, last: schar, current: byte, loc: Locale)
    requires InStep(n, 0, group, last, current, loc)
    ensures ComesBack(n, 0, group, last, current, loc)
    decreases n, 1, 0
  {
    if group + 1 < |loc.grouping| && loc.grouping[group + 1] <= 0 {
      ComesBackEndless(n, group, last, current, loc);
    } else {
      var size, entry := NextSize(loc, group + 1, last), NextEntry(loc.grouping, current);
      NextGroupComesBack(n, group, last, current, loc, size, entry);
    }
  }

  lemma {:induction false} NextGroupComesBack(n: nat, group: nat, last: schar, current: byte, loc: Locale,
                                              size: schar, entry: byte)
    requires InStep(n, 0, group, last, current, loc)
    requires group + 1 < |loc.grouping| ==> loc.grouping[group + 1] > 0
    requires size == NextSize(loc, group + 1, last) && entry == NextEntry(loc.grouping, current)
    ensures ComesBack(n, 0, group, last, current, loc)
    decreases n, 0, 2
  {
    StaysInStep(n, group, last, current, loc, size, entry);
    PrintedComesBack(n, size, group + 1, size, entry, loc);
    ComesBackSeparator(n, group, last, current, loc, size, entry);
  }

  lemma StaysInStep(n: nat, group: nat, last: schar, current: byte, loc: Locale, size: schar, entry: byte)
    requires InStep(n, 0, group, last, current, loc)
    requires group + 1 < |loc.grouping| ==> loc.grouping[group + 1] > 0
    requires size == NextSize(loc, group + 1, last) && entry == NextEntry(loc.grouping, current)
    ensures InStep(n, size, group + 1, size, entry, loc)
  {
    NextInStep(n, group, last, current, loc);
  }

  lemma ComesBackDigit(n: nat, left: schar, group: nat, last: schar, current: byte, loc: Locale)
    requires InStep(n, left, group, last, current, loc) && left > 0
    requires n >= 10 ==> ComesBack(n / 10, left - 1, group, last, current, loc)
    ensures ComesBack(n, left, group, last, current, loc)
  {
    HeadComesBack(n, left, group, last, current, loc);
    var head, c := Head(n, left as nat, group, last, loc), DigitChar(n % 10);
    PutDigit(n, left as nat, group, last, loc);
    StripDigit(head, c, left, current, loc.grouping, loc.sep);
    VerdictDigit(Strip(head, left - 1, current, loc.grouping, loc.sep), if n < 10 then [] else Digits(n / 10),
                 Hits(n, left as nat, group, loc), c);
  }

  lemma HeadComesBack(n: nat, left: schar, group: nat, last: schar, current: byte, loc: Locale)
    requires InStep(n, left, group, last, current, loc) && left > 0
    requires n >= 10 ==> ComesBack(n / 10, left - 1, group, last, current, loc)
    ensures Verdict(Strip(Head(n, left as nat, group, last, loc), left - 1, current, loc.grouping, loc.sep),
                    if n < 10 then [] else Digits(n / 10), Hits(n, left as nat, group, loc))
  {
    HitsTail(n, left as nat, group, loc);
  }

  /** Both sides move to the same entry. */
  lemma NextInStep(n: nat, group: nat, last: schar, current: byte, loc: Locale)
    requires InStep(n, 0, group, last, current, loc)
    ensures var g := loc.grouping[NextEntry(loc.grouping, current)];
      && (group + 1 < |loc.grouping| ==> g == loc.grouping[group + 1])
      && (group + 1 >= |loc.grouping| ==> g == last)
      && NextSize(loc, group + 1, last) == (if g <= 0 then CHAR_MAX else g)
  {
  }

  lemma ComesBackSeparator(n: nat, group: nat, last: schar, current: byte, loc: Locale, size: schar, entry: byte)
    requires InStep(n, 0, group, last, current, loc)
    requires group + 1 < |loc.grouping| ==> loc.grouping[group + 1] > 0
    requires size == NextSize(loc, group + 1, last) && entry == NextEntry(loc.grouping, current)
    requires ComesBack(n, size, group + 1, size, entry, loc)
    ensures ComesBack(n, 0, group, last, current, loc)
  {
    NextInStep(n, group, last, current, loc);
    SeparatorLast(n, group, last, loc);
    StripSeparator(PutGrouped(n, size as nat, group + 1, size, loc), loc.sep, current, loc.grouping, loc.sep);
    HitsSeparator(n, group, last, loc);
  }

  lemma HitsSeparator(n: nat, group: nat, last: schar, loc: Locale)
    requires loc.Groups() && last > 0
    requires group + 1 < |loc.grouping| ==> loc.grouping[group + 1] > 0
    ensures Hits(n, 0, group, loc) <==> Hits(n, NextSize(loc, group + 1, last) as nat, group + 1, loc)
  {
  }

  lemma ComesBackEndless(n: nat, group: nat, last: schar, current: byte, loc: Locale)
    requires InStep(n, 0, group, last, current, loc)
    requires group + 1 < |loc.grouping| && loc.grouping[group + 1] <= 0
    ensures ComesBack(n, 0, group, last, current, loc)
  {
    var d, entry := Digits(n), NextEntry(loc.grouping, current);
    NextInStep(n, group, last, current, loc);
    PutEndless(n, group, last, loc);
    StripSeparator(d, loc.sep, current, loc.grouping, loc.sep);
    HitsEndless(n, group, loc);
    if loc.grouping[entry] < 0 {
      StripPlain(d, loc.grouping[entry], entry, loc.grouping, loc.sep);
    } else {
      EmptyGroup(d, entry, loc.grouping, loc.sep);
    }
  }

  lemma PutEndless(n: nat, group: nat, last: schar, loc: Locale)
    requires loc.Groups() && last > 0 && |Digits(n)| <= CHAR_MAX as nat
    requires group + 1 < |loc.grouping| && loc.grouping[group + 1] <= 0
    ensures PutGrouped(n, 0, group, last, loc) == Digits(n) + [loc.sep]
  {
    SeparatorLast(n, group, last, loc);
    EndlessGroup(n, CHAR_MAX as nat, group + 1, CHAR_MAX, loc);
  }

  lemma HitsEndless(n: nat, group: nat, loc: Locale)
    requires loc.Groups() && group + 1 < |loc.grouping| && loc.grouping[group + 1] <= 0
    ensures Hits(n, 0, group, loc) <==> loc.grouping[group + 1] == 0 && Digits(n)[|Digits(n)| - 1] == loc.sep
  {
  }

  /** At an entry of zero the next character is kept unless it looks like a separator. */
  lemma EmptyGroup(d: string, current: byte, grouping: seq<schar>, sep: char)
    requires current < |grouping| && d != []
    ensures Verdict(Strip(d, 0, current, grouping, sep), d, d[|d| - 1] == sep)
  {
    var t := d[..|d| - 1];
    var next := NextEntry(grouping, current);
    StripShorter(t, grouping[next], next, grouping, sep);
  }

  lemma UngroupPrinted(n: nat, loc: Locale)
    requires |Digits(n)| <= CHAR_MAX as nat
    ensures Verdict(Ungroup(PutUnsigned(n, loc), loc), Digits(n), Swallowed(n, loc))
  {
    if loc.Groups() {
      UngroupGrouped(n, loc, loc.grouping[0]);
      SwallowedHits(n, loc);
    }
  }

  lemma UngroupGrouped(n: nat, loc: Locale, g: schar)
    requires |Digits(n)| <= CHAR_MAX as nat && loc.Groups() && g == loc.grouping[0]
    ensures Verdict(Ungroup(PutUnsigned(n, loc), loc), Digits(n), Hits(n, g as nat, 0, loc))
  {
    var head, c := Head(n, g as nat, 0, g, loc), DigitChar(n % 10);
    PutDigit(n, g as nat, 0, g, loc);
    UngroupLast(head, c, loc);
    FirstHeadComesBack(n, loc, g);
    VerdictDigit(Strip(head, g - 1, 0, loc.grouping, loc.sep), if n < 10 then [] else Digits(n / 10),
                 Hits(n, g as nat, 0, loc), c);
  }

  /** All but the last digit, which is read before the counting begins. */
  lemma FirstHeadComesBack(n: nat, loc: Locale, g: schar)
    requires |Digits(n)| <= CHAR_MAX as nat && loc.Groups() && g == loc.grouping[0]
    ensures Verdict(Strip(Head(n, g as nat, 0, g, loc), g - 1, 0, loc.grouping, loc.sep),
                    if n < 10 then [] else Digits(n / 10), Hits(n, g as nat, 0, loc))
  {
    if n >= 10 {
      PrintedComesBack(n / 10, g - 1, 0, g, 0, loc);
    }
    HeadComesBack(n, g, 0, g, 0, loc);
  }

  lemma SwallowedHits(n: nat, loc: Locale)
    requires loc.Groups()
    ensures Swallowed(n, loc) <==> Hits(n, loc.grouping[0] as nat, 0, loc)
  {
  }

  lemma UngroupLast(t: string, c: char, loc: Locale)
    requires loc.Groups()
    ensures Ungroup(t + [c], loc) == Before(Strip(t, loc.grouping[0] - 1, 0, loc.grouping, loc.sep), [c])
  {
    assert (t + [c])[..|t + [c]| - 1] == t;
  }

  /**
   Printing and parsing an unsigned value gives it back, under every grouping and
   separator, exactly when no digit is taken for a separator.
   */
  lemma UnsignedRoundTrip(n: nat, loc: Locale, m: nat)
    requires n < m && |Digits(n)| <= CHAR_MAX as nat
    ensures ParseUnsigned(PutUnsigned(n, loc), loc, m) == Some(n) <==> !Swallowed(n, loc)
  {
    UngroupPrinted(n, loc);
    DigitsValue(n);
    if Swallowed(n, loc) {
      SwallowedPositive(n, loc);
      match Ungroup(PutUnsigned(n, loc), loc)
      case Some(d) =>
        if AllDigits(d) {
          FewerDigits(d, n);
        }
      case None =>
    }
  }

  lemma FewerDigits(d: string, n: nat)
    requires AllDigits(d) && n > 0 && |d| < |Digits(n)|
    ensures Value(d) < n
  {
    ValueBound(d);
    DigitsLower(n);
    Pow10Monotone(|d|, |Digits(n)| - 1);
  }

  lemma SwallowedPositive(n: nat, loc: Locale)
    requires Swallowed(n, loc)
    ensures n > 0
  {
    assert ZeroGroup(loc.grouping, 0).value > 0;
  }

  /** Grouping "\1\0" with separator '0'. */
  function ZeroLocale(): (loc: Locale)
    ensures loc.Groups() && loc.grouping == [1, 0] && loc.sep == '0'
  {
    Punct([1, 0], '0')
  }

  lemma Print2305()
    ensures PutUnsigned(2305, ZeroLocale()) == "23005"
  {
    var loc := ZeroLocale();
    EndlessGroup(230, CHAR_MAX as nat, 1, CHAR_MAX, loc);
    Digits2305();
    SeparatorLast(230, 0, 1, loc);
    PutDigit(2305, 1, 0, 1, loc);
    assert "230" + ['0'] == "2300" && "2300" + ['5'] == "23005";
  }

  lemma Strip2300(g: seq<schar>)
    requires g == [1, 0]
    ensures Strip("2300", 0, 0, g, '0') == Some("23")
  {
    assert "230" + ['0'] == "2300" && "23" + ['0'] == "230" && "2" + ['3'] == "23";
    StripSeparator("230", '0', 0, g, '0');
    StripSeparator("23", '0', 1, g, '0');
    StripSeparator("2", '3', 1, g, '0');
  }

  /** The failing family is not empty: there the zero of 2305 is lost. */
  lemma DigitSeparatorBreaks(m: nat)
    requires m > 2305
    ensures PutUnsigned(2305, ZeroLocale()) == "23005"
    ensures ParseUnsigned("23005", ZeroLocale(), m) == Some(235)
    ensures Swallowed(2305, ZeroLocale())
  {
    var loc := ZeroLocale();
    Print2305();
    Strip2300(loc.grouping);
    UngroupLast("2300", '5', loc);
    assert "2300" + ['5'] == "23005" && "23" + ['5'] == "235";
    Value235();
    Digits2305();
    SwallowedByRoundTrip(2305, loc, m);
  }

  lemma SwallowedByRoundTrip(n: nat, loc: Locale, m: nat)
    requires n < m && |Digits(n)| <= CHAR_MAX as nat
    requires ParseUnsigned(PutUnsigned(n, loc), loc, m) != Some(n)
    ensures Swallowed(n, loc)
  {
    UnsignedRoundTrip(n, loc, m);
  }

  lemma Value235()
    ensures AllDigits("235") && Value("235") == 235
  {
    AppendValue([], '2');
    AppendValue("2", '3');
    AppendValue("23", '5');
    assert [] + ['2'] == "2" && "2" + ['3'] == "23" && "23" + ['5'] == "235";
  }

  lemma Digits2305()
    ensures Digits(2305) == "2305" && Digits(230) == "230" && Digits(23) == "23"
  {
    assert Digits(2) == "2";
  }
}
