/**
 Printed text group by group: cut the digits of the number into groups from the right and
 put separators between them. The printer counts digits down; here nothing is counted.
 */
module LexicalGroups {
  import opened Words
  import opened Decimals
  import opened LexicalPrint

  /** The size of group i from the right: the last entry repeats, and one of zero or less allows 127 digits. */
  function Size(grouping: seq<schar>, i: nat): (n: nat)
    requires grouping != []
    ensures n > 0
  {
    var e := grouping[if i < |grouping| then i else |grouping| - 1];
    if e > 0 then e as nat else 127
  }

  /** The digits d in groups: the rightmost has n digits, and those to its left are group i + 1 and so on. */
  function InGroups(d: string, n: nat, i: nat, grouping: seq<schar>, sep: char): string
    requires grouping != []
    decreases |d|, if n == 0 then 1 else 0
  {
    if |d| <= n then d
    else InGroups(d[..|d| - n], Size(grouping, i + 1), i + 1, grouping, sep) + ([sep] + d[|d| - n..])
  }

  lemma InGroupsSnoc(d: string, c: char, n: nat, i: nat, grouping: seq<schar>, sep: char)
    requires grouping != []
    ensures InGroups(d + [c], n + 1, i, grouping, sep) == InGroups(d, n, i, grouping, sep) + [c]
  {
    if |d| > n {
      var front := InGroups(d[..|d| - n], Size(grouping, i + 1), i + 1, grouping, sep);
      CutSnoc(d, c, |d| - n);
      FirstGroup(d, n, i, grouping, sep);
      FirstGroup(d + [c], n + 1, i, grouping, sep);
      Regroup(front, sep, d[|d| - n..], c);
    }
  }

  lemma FirstGroup(d: string, n: nat, i: nat, grouping: seq<schar>, sep: char)
    requires grouping != [] && |d| > n
    ensures InGroups(d, n, i, grouping, sep)
         == InGroups(d[..|d| - n], Size(grouping, i + 1), i + 1, grouping, sep) + ([sep] + d[|d| - n..])
  {
  }

  lemma CutSnoc(d: string, c: char, cut: nat)
    requires cut <= |d|
    ensures (d + [c])[..cut] == d[..cut]
    ensures (d + [c])[cut..] == d[cut..] + [c]
  {
  }

  lemma Regroup(front: string, sep: char, tail: string, c: char)
    ensures (front + ([sep] + tail)) + [c] == front + ([sep] + (tail + [c]))
  {
  }

  lemma InGroupsSeparator(d: string, i: nat, grouping: seq<schar>, sep: char)
    requires grouping != [] && d != []
    ensures InGroups(d, 0, i, grouping, sep) == InGroups(d, Size(grouping, i + 1), i + 1, grouping, sep) + [sep]
  {
    assert d[..|d|] == d;
    assert [sep] + d[|d|..] == [sep];
  }

  lemma NextSizeIs(loc: Locale, group: nat)
    requires loc.Groups()
    ensures NextSize(loc, group + 1, LastSize(loc, group)) == LastSize(loc, group + 1)
  {
  }

  /** The size in use in group `group`, as a char. */
  function LastSize(loc: Locale, group: nat): (s: schar)
    requires loc.Groups()
    ensures s > 0
  {
    Size(loc.grouping, group) as schar
  }

  /** What is printed from a state of the counters is the digits in groups. */
  ghost predicate IsInGroups(n: nat, left: nat, group: nat, loc: Locale)
    requires loc.Groups()
  {
    PutGrouped(n, left, group, LastSize(loc, group), loc) == InGroups(Digits(n), left, group, loc.grouping, loc.sep)
  }

  lemma {:induction false} PutGroupedIs(n: nat, left: nat, group: nat, loc: Locale)
    requires loc.Groups()
    ensures IsInGroups(n, left, group, loc)
    decreases n, if left == 0 then 1 else 0
  {
    if left == 0 {
      PutGroupedIs(n, LastSize(loc, group + 1) as nat, group + 1, loc);
      SeparatorInGroups(n, group, loc);
    } else {
      if n >= 10 {
        PutGroupedIs(n / 10, left - 1, group, loc);
      }
      DigitInGroups(n, left, group, loc);
    }
  }

  lemma SeparatorInGroups(n: nat, group: nat, loc: Locale)
    requires loc.Groups() && IsInGroups(n, LastSize(loc, group + 1) as nat, group + 1, loc)
    ensures IsInGroups(n, 0, group, loc)
  {
    NextSizeIs(loc, group);
    SeparatorLast(n, group, LastSize(loc, group), loc);
    InGroupsSeparator(Digits(n), group, loc.grouping, loc.sep);
  }

  lemma DigitInGroups(n: nat, left: nat, group: nat, loc: Locale)
    requires loc.Groups() && left > 0 && (n >= 10 ==> IsInGroups(n / 10, left - 1, group, loc))
    ensures IsInGroups(n, left, group, loc)
  {
    PutDigit(n, left, group, LastSize(loc, group), loc);
    if n >= 10 {
      InGroupsSnoc(Digits(n / 10), DigitChar(n % 10), left - 1, group, loc.grouping, loc.sep);
    }
  }

  /**
   The printed text: the digits in groups when the grouping begins with a positive entry,
   and just the digits otherwise.
   */
  lemma PrintedInGroups(n: nat, loc: Locale)
    ensures PutUnsigned(n, loc)
         == if loc.Punct? && loc.grouping != [] && loc.grouping[0] > 0
            then InGroups(Digits(n), loc.grouping[0] as nat, 0, loc.grouping, loc.sep)
            else Digits(n)
  {
    if loc.Groups() {
      PutGroupedIs(n, loc.grouping[0] as nat, 0, loc);
    }
  }

  // ----- The advertised buffer length -----

  /** One digit a group: the text is as long as it can be. */
  lemma {:induction false} SinglesLength(n: nat, left: nat, group: nat, loc: Locale)
    requires loc.Groups() && loc.grouping == [1] && left <= 1
    ensures |PutGrouped(n, left, group, 1, loc)| == 2 * |Digits(n)| - left
  {
    if n >= 10 {
      SinglesLength(n / 10, 0, group + (1 - left), loc);
    }
  }
}
