/**
 Which texts are numbers in a grouping locale: the digits, with any number of the
 separators that the grouping calls for, counted from the right. Those further left may be
 missing.
 */
module LexicalGrouping {
  import opened Words
  import opened Decimals
  import opened LexicalPrint
  import opened LexicalParse

  /** How many digits an entry makes the parser read: it counts the char down to zero, wrapping. */
  function Count(e: schar): (n: nat) {
    if e < 0 then e as int + 256 else e as int
  }

  /** The digits d with k separators, the first of them n digits from the right. */
  function Spaced(d: string, k: nat, n: nat, current: byte, grouping: seq<schar>, sep: char): string
    requires current < |grouping|
    decreases k
  {
    if k == 0 || |d| < n then d
    else
      var next := NextEntry(grouping, current);
      Spaced(d[..|d| - n], k - 1, Count(grouping[next]), next, grouping, sep) + ([sep] + d[|d| - n..])
  }

  /** The digits reach beyond each of the k separators. */
  predicate Room(digits: nat, k: nat, n: nat, current: byte, grouping: seq<schar>)
    requires current < |grouping|
    decreases k
  {
    k == 0
    || (digits > n
        && var next := NextEntry(grouping, current);
           Room(digits - n, k - 1, Count(grouping[next]), next, grouping))
  }

  /** t is d with k separators, and they all fit. */
  predicate IsSpaced(t: string, d: string, k: nat, n: nat, current: byte, grouping: seq<schar>, sep: char)
    requires current < |grouping|
  {
    Room(|d|, k, n, current, grouping) && t == Spaced(d, k, n, current, grouping, sep)
  }

  /** s is the digits d with the rightmost k separators of the locale. */
  predicate Grouped(s: string, d: string, k: nat, loc: Locale)
    requires loc.Groups()
  {
    IsSpaced(s, d, k, loc.grouping[0] as nat, 0, loc.grouping, loc.sep)
  }

  lemma SpacedSnoc(d: string, c: char, k: nat, n: nat, current: byte, grouping: seq<schar>, sep: char)
    requires current < |grouping| && Room(|d|, k, n, current, grouping)
    ensures Spaced(d + [c], k, n + 1, current, grouping, sep) == Spaced(d, k, n, current, grouping, sep) + [c]
    ensures Room(|d| + 1, k, n + 1, current, grouping)
  {
    if k > 0 {
      var next := NextEntry(grouping, current);
      var cut := |d| - n;
      assert (d + [c])[..cut] == d[..cut];
      assert (d + [c])[cut..] == d[cut..] + [c];
      var front := Spaced(d[..cut], k - 1, Count(grouping[next]), next, grouping, sep);
      assert (front + ([sep] + d[cut..])) + [c] == front + ([sep] + (d[cut..] + [c]));
    }
  }

  lemma SpacedSeparator(d: string, k: nat, current: byte, grouping: seq<schar>, sep: char)
    requires current < |grouping|
    ensures var next := NextEntry(grouping, current);
      Spaced(d, k + 1, 0, current, grouping, sep)
      == Spaced(d, k, Count(grouping[next]), next, grouping, sep) + [sep]
  {
    assert d[..|d|] == d;
    assert [sep] + d[|d|..] == [sep];
  }

  lemma OneDigitMore(t: string, d: string, c: char, k: nat, n: nat, current: byte, grouping: seq<schar>, sep: char)
    requires current < |grouping| && IsSpaced(t, d, k, n, current, grouping, sep)
    ensures IsSpaced(t + [c], d + [c], k, n + 1, current, grouping, sep)
  {
    SpacedSnoc(d, c, k, n, current, grouping, sep);
  }

  lemma OneSeparatorMore(t: string, d: string, k: nat, current: byte, grouping: seq<schar>, sep: char)
    requires current < |grouping| && t != []
    requires var next := NextEntry(grouping, current);
      IsSpaced(t, d, k, Count(grouping[next]), next, grouping, sep)
    ensures IsSpaced(t + [sep], d, k + 1, 0, current, grouping, sep)
  {
    SpacedSeparator(d, k, current, grouping, sep);
  }

  /** Whatever the loop accepts is spaced text. */
  lemma {:induction false} StripSpaced(s: string, d: string, remained: schar, current: byte, grouping: seq<schar>,
                                       sep: char)
    returns (k: nat)
    requires current < |grouping| && Strip(s, remained, current, grouping, sep) == Some(d)
    ensures IsSpaced(s, d, k, Count(remained), current, grouping, sep)
    decreases |s|
  {
    if s == [] || (remained == 0 && s[|s| - 1] != sep) {
      return 0;
    }
    var t := s[..|s| - 1];
    PutBack(s);
    if remained != 0 {
      var d' := StripTook(s, d, remained, current, grouping, sep);
      k := StripSpaced(t, d', Decrement(remained), current, grouping, sep);
      OneDigitMore(t, d', s[|s| - 1], k, Count(Decrement(remained)), current, grouping, sep);
    } else {
      var next := NextEntry(grouping, current);
      k := StripSpaced(t, d, grouping[next], next, grouping, sep);
      OneSeparatorMore(t, d, k, current, grouping, sep);
      k := k + 1;
    }
  }

  lemma StripTook(s: string, d: string, remained: schar, current: byte, grouping: seq<schar>, sep: char)
    returns (d': string)
    requires current < |grouping| && remained != 0 && s != []
    requires Strip(s, remained, current, grouping, sep) == Some(d)
    ensures Strip(s[..|s| - 1], Decrement(remained), current, grouping, sep) == Some(d')
    ensures d == d' + [s[|s| - 1]]
  {
    d' := Strip(s[..|s| - 1], Decrement(remained), current, grouping, sep).value;
  }

  lemma OneDigitLess(s: string, d: string, k: nat, n: nat, current: byte, grouping: seq<schar>, sep: char)
    requires current < |grouping| && d != [] && IsSpaced(s, d, k, n + 1, current, grouping, sep)
    ensures s != [] && s[|s| - 1] == d[|d| - 1]
    ensures IsSpaced(s[..|s| - 1], d[..|d| - 1], k, n, current, grouping, sep)
  {
    PutBack(d);
    SpacedSnoc(d[..|d| - 1], d[|d| - 1], k, n, current, grouping, sep);
  }

  lemma OneSeparatorLess(s: string, d: string, k: nat, current: byte, grouping: seq<schar>, sep: char)
    requires current < |grouping| && IsSpaced(s, d, k + 1, 0, current, grouping, sep)
    ensures d != [] && s != [] && s[|s| - 1] == sep
    ensures var next := NextEntry(grouping, current);
      IsSpaced(s[..|s| - 1], d, k, Count(grouping[next]), next, grouping, sep)
  {
    SpacedSeparator(d, k, current, grouping, sep);
  }

  /** Spaced text is accepted, and the digits are found again, unless one of them looks like a separator. */
  lemma {:induction false} SpacedStrips(s: string, d: string, k: nat, remained: schar, current: byte,
                                        grouping: seq<schar>, sep: char)
    requires current < |grouping| && IsSpaced(s, d, k, Count(remained), current, grouping, sep) && sep !in d
    ensures Strip(s, remained, current, grouping, sep) == Some(d)
    decreases |d|, k
  {
    if k == 0 {
      StripNothing(d, remained, current, grouping, sep);
    } else if remained != 0 {
      OneDigitLess(s, d, k, Count(Decrement(remained)), current, grouping, sep);
      SpacedStrips(s[..|s| - 1], d[..|d| - 1], k, Decrement(remained), current, grouping, sep);
      StripTakes(s, d, remained, current, grouping, sep);
    } else {
      var next := NextEntry(grouping, current);
      OneSeparatorLess(s, d, k - 1, current, grouping, sep);
      SpacedStrips(s[..|s| - 1], d, k - 1, grouping[next], next, grouping, sep);
      StripSkips(s, d, current, grouping, sep);
    }
  }

  lemma StripSkips(s: string, d: string, current: byte, grouping: seq<schar>, sep: char)
    requires current < |grouping| && s != [] && s[|s| - 1] == sep && d != []
    requires var next := NextEntry(grouping, current);
      Strip(s[..|s| - 1], grouping[next], next, grouping, sep) == Some(d)
    ensures Strip(s, 0, current, grouping, sep) == Some(d)
  {
  }

  /** The whole span, whose last character is read before the counting begins. */
  lemma UngroupGrouped(s: string, loc: Locale) returns (k: nat)
    requires loc.Groups() && Ungroup(s, loc).Some?
    ensures Grouped(s, Ungroup(s, loc).value, k, loc)
  {
    var t, c, remained := s[..|s| - 1], s[|s| - 1], loc.grouping[0] - 1;
    var d := Strip(t, remained, 0, loc.grouping, loc.sep).value;
    k := StripSpaced(t, d, remained, 0, loc.grouping, loc.sep);
    OneDigitMore(t, d, c, k, Count(remained), 0, loc.grouping, loc.sep);
    PutBack(s);
  }

  lemma GroupedUngroups(s: string, d: string, k: nat, loc: Locale)
    requires loc.Groups() && d != [] && loc.sep !in d && Grouped(s, d, k, loc)
    ensures Ungroup(s, loc) == Some(d)
  {
    var d', remained := d[..|d| - 1], loc.grouping[0] - 1;
    OneDigitLess(s, d, k, Count(remained), 0, loc.grouping, loc.sep);
    SpacedStrips(s[..|s| - 1], d', k, remained, 0, loc.grouping, loc.sep);
    PutBack(d);
  }

  /**
   With a separator that is no digit: a text is the number v if and only if it is a digit
   string of that value, with the rightmost k of its separators for some k.
   */
  lemma GroupedTextExact(s: string, loc: Locale, m: nat, v: nat)
    requires loc.Punct? && loc.grouping != [] && loc.grouping[0] > 0 && !IsDigit(loc.sep)
    ensures ParseUnsigned(s, loc, m) == Some(v)
       <==> exists d: string, k: nat :: Grouped(s, d, k, loc) && d != [] && AllDigits(d) && Value(d) == v < m
  {
    if ParseUnsigned(s, loc, m) == Some(v) {
      var k := UngroupGrouped(s, loc);
      assert Grouped(s, Ungroup(s, loc).value, k, loc);
    }
    forall d: string, k: nat | Grouped(s, d, k, loc) && d != [] && AllDigits(d) && Value(d) == v < m
      ensures ParseUnsigned(s, loc, m) == Some(v)
    {
      GroupedUngroups(s, d, k, loc);
    }
  }
}
