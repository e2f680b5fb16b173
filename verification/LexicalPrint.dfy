/** Printing an unsigned integer into a buffer, from the right, with the digit grouping of a locale. */
module LexicalPrint {
  import opened Decimals

  /** The C++ type `char` as a number: the entries of a grouping string are used as sizes. */
  type schar = x: int | -128 <= x < 128

  const CHAR_MAX: schar := 127

  lemma CharMaxIsLargest(x: schar)
    ensures x <= CHAR_MAX
  {
  }

  /** What the conversions ask of the global locale. */
  datatype Locale = Classic | Punct(grouping: seq<schar>, sep: char) {
    predicate Groups() {
      Punct? && grouping != [] && grouping[0] > 0
    }
  }

  /** An entry of zero or less, or CHAR_MAX, stands for a group without end. */
  function GroupSize(g: schar): (s: schar)
    ensures 0 < s && (g > 0 ==> s == g)
    ensures g <= 0 ==> s == 127
  {
    if g <= 0 then CHAR_MAX else g
  }

  /** The group size in use when group `group` begins. */
  function NextSize(loc: Locale, group: nat, last: schar): (s: schar)
    requires loc.Groups() && last > 0
    ensures s > 0
  {
    if group < |loc.grouping| then GroupSize(loc.grouping[group]) else last
  }

  /**
   What the grouping loop writes for n, from state (left, group, last): the digits that
   remain, with a separator wherever the counter reaches zero before a digit.
   */
  function PutGrouped(n: nat, left: nat, group: nat, last: schar, loc: Locale): (s: string)
    requires loc.Groups() && last > 0
    ensures s != []
  {
    if left == 0 then
      var size := NextSize(loc, group + 1, last);
      (if n < 10 then [] else PutGrouped(n / 10, size as nat - 1, group + 1, size, loc)) + [DigitChar(n % 10), loc.sep]
    else
      (if n < 10 then [] else PutGrouped(n / 10, left - 1, group, last, loc)) + [DigitChar(n % 10)]
  }

  /** The text of n in a locale. */
  function PutUnsigned(n: nat, loc: Locale): (s: string)
    ensures s != []
  {
    if loc.Groups() then PutGrouped(n, loc.grouping[0] as nat, 0, loc.grouping[0], loc) else Digits(n)
  }

  // ----- How much is written -----

  lemma {:induction false} GroupedLength(n: nat, left: nat, group: nat, last: schar, loc: Locale)
    requires loc.Groups() && last > 0
    ensures |PutGrouped(n, left, group, last, loc)| <= 2 * |Digits(n)| - (if left == 0 then 0 else 1)
  {
    var size := NextSize(loc, group + 1, last);
    if n >= 10 {
      if left == 0 {
        GroupedLength(n / 10, size as nat - 1, group + 1, size, loc);
      } else {
        GroupedLength(n / 10, left - 1, group, last, loc);
      }
    }
  }

  lemma {:induction false} PutLength(n: nat, loc: Locale)
    ensures |PutUnsigned(n, loc)| <= 2 * |Digits(n)| - 1
  {
    if loc.Groups() {
      GroupedLength(n, loc.grouping[0] as nat, 0, loc.grouping[0], loc);
    }
  }

  // ----- lcast_put_unsigned -----

  /**
   Fills the buffer backwards from `finish0` and returns where the text begins. The
   caller provides the room; nothing outside the text is written.
   */
  method LcastPutUnsigned(n0: nat, buf: array<char>, finish0: nat, loc: Locale) returns (start: nat)
    requires |PutUnsigned(n0, loc)| <= finish0 <= buf.Length
    modifies buf
    ensures start == finish0 - |PutUnsigned(n0, loc)|
    ensures buf[..] == old(buf[..start]) + PutUnsigned(n0, loc) + old(buf[finish0..])
  {
    if loc.Groups() {
      start := PutGroupedLoop(n0, buf, finish0, loc);
    } else {
      start := PutPlainLoop(n0, buf, finish0);
    }
  }

  /** What is still to be written, what has been written, and what was there before. */
  ghost predicate Filling(now: seq<char>, was: seq<char>, finish: nat, finish0: nat, rest: string, total: string) {
    && finish <= finish0 <= |now| == |was| && |rest| <= finish
    && now[..finish] == was[..finish] && now[finish0..] == was[finish0..]
    && rest + now[finish..finish0] == total
  }

  lemma FillStart(was: seq<char>, finish0: nat, total: string)
    requires |total| <= finish0 <= |was|
    ensures Filling(was, was, finish0, finish0, total, total)
  {
    assert total + was[finish0..finish0] == total;
  }

  lemma FillOne(now: seq<char>, was: seq<char>, finish: nat, finish0: nat, rest: string, c: char, total: string)
    requires Filling(now, was, finish, finish0, rest + [c], total)
    ensures Filling(now[finish - 1 := c], was, finish - 1, finish0, rest, total)
  {
    var next := now[finish - 1 := c];
    assert next[finish - 1..finish0] == [c] + now[finish..finish0];
    assert (rest + [c]) + now[finish..finish0] == rest + ([c] + now[finish..finish0]);
    assert next[..finish - 1] == now[..finish][..finish - 1];
  }

  lemma Filled(now: seq<char>, was: seq<char>, finish: nat, finish0: nat, total: string)
    requires Filling(now, was, finish, finish0, [], total)
    ensures finish == finish0 - |total|
    ensures now == was[..finish] + total + was[finish0..]
  {
    assert [] + now[finish..finish0] == now[finish..finish0];
    assert now == now[..finish] + now[finish..finish0] + now[finish0..];
  }

  method PutPlainLoop(n0: nat, buf: array<char>, finish0: nat) returns (finish: nat)
    requires |Digits(n0)| <= finish0 <= buf.Length
    modifies buf
    ensures finish == finish0 - |Digits(n0)|
    ensures buf[..] == old(buf[..finish]) + Digits(n0) + old(buf[finish0..])
  {
    ghost var was := buf[..];
    var n := n0;
    finish := finish0;
    var more := true;
    FillStart(was, finish0, Digits(n0));
    while more
      invariant Filling(buf[..], was, finish, finish0, if more then Digits(n) else [], Digits(n0))
      decreases more, n
    {
      ghost var rest := if n < 10 then [] else Digits(n / 10);
      assert Digits(n) == rest + [DigitChar(n % 10)];
      finish := PutChar(buf, was, finish, finish0, DigitChar(n % 10), rest, Digits(n0));
      n := n / 10;
      more := n != 0;
    }
    Filled(buf[..], was, finish, finish0, Digits(n0));
  }

  /** What the grouping loop still has to write. */
  ghost function Todo(more: bool, n: nat, left: schar, group: nat, last: schar, loc: Locale): string
    requires loc.Groups() && last > 0 && left >= 0
  {
    if more then PutGrouped(n, left as nat, group, last, loc) else []
  }

  method PutGroupedLoop(n0: nat, buf: array<char>, finish0: nat, loc: Locale) returns (finish: nat)
    requires loc.Groups()
    requires |PutUnsigned(n0, loc)| <= finish0 <= buf.Length
    modifies buf
    ensures finish == finish0 - |PutUnsigned(n0, loc)|
    ensures buf[..] == old(buf[..finish]) + PutUnsigned(n0, loc) + old(buf[finish0..])
  {
    ghost var was, total := buf[..], PutUnsigned(n0, loc);
    var n := n0;
    finish := finish0;
    var group: nat := 0;
    var lastGrpSize: schar := loc.grouping[0];
    var left: schar := lastGrpSize;
    var more := true;
    FillStart(was, finish0, total);
    while more
      invariant lastGrpSize > 0 && left >= 0
      invariant Filling(buf[..], was, finish, finish0, Todo(more, n, left, group, lastGrpSize, loc), total)
      decreases more, n
    {
      if left == 0 {
        finish, group, lastGrpSize := BeginGroup(buf, was, finish, finish0, n, group, lastGrpSize, loc, total);
        left := lastGrpSize;
      }
      finish := WriteDigit(buf, was, finish, finish0, n, left, group, lastGrpSize, loc, total);
      left := left - 1;
      n := n / 10;
      more := n != 0;
    }
    Filled(buf[..], was, finish, finish0, total);
  }

  /** The counter has come to zero: settle the size of the next group and write the separator. */
  method BeginGroup(buf: array<char>, ghost was: seq<char>, finish0: nat, ghost end: nat, ghost n: nat, group0: nat,
                    last0: schar, loc: Locale, ghost total: string)
    returns (finish: nat, group: nat, lastGrpSize: schar)
    requires loc.Groups() && last0 > 0
    requires Filling(buf[..], was, finish0, end, Todo(true, n, 0, group0, last0, loc), total)
    modifies buf
    ensures group == group0 + 1 && lastGrpSize == NextSize(loc, group, last0)
    ensures group >= |loc.grouping| ==> lastGrpSize == last0
    ensures group < |loc.grouping| && loc.grouping[group] > 0 ==> lastGrpSize == loc.grouping[group]
    ensures group < |loc.grouping| && loc.grouping[group] <= 0 ==> lastGrpSize == 127
    ensures Filling(buf[..], was, finish, end, Todo(true, n, lastGrpSize, group, lastGrpSize, loc), total)
  {
    group, lastGrpSize := group0 + 1, last0;
    if group < |loc.grouping| {
      var grpSize := loc.grouping[group];
      lastGrpSize := if grpSize <= 0 then CHAR_MAX else grpSize;
    }
    SeparatorLast(n, group0, last0, loc);
    ghost var todo := PutGrouped(n, lastGrpSize as nat, group, lastGrpSize, loc);
    finish := PutChar(buf, was, finish0, end, loc.sep, todo, total);
  }

  /** `lcast_put_unsigned_loop_body`: the last digit of n goes in front of what has been written. */
  method WriteDigit(buf: array<char>, ghost was: seq<char>, finish0: nat, ghost end: nat, n: nat, ghost left: schar,
                    ghost group: nat, ghost last: schar, ghost loc: Locale, ghost total: string)
    returns (finish: nat)
    requires loc.Groups() && last > 0 && left > 0
    requires Filling(buf[..], was, finish0, end, Todo(true, n, left, group, last, loc), total)
    modifies buf
    ensures finish == finish0 - 1
    ensures Filling(buf[..], was, finish, end, Todo(n / 10 != 0, n / 10, left - 1, group, last, loc), total)
  {
    PutDigit(n, left as nat, group, last, loc);
    finish := PutChar(buf, was, finish0, end, DigitChar(n % 10), Head(n, left as nat, group, last, loc), total);
  }

  /** What stands to the left of the last digit of n, once the separator before it is settled. */
  function Head(n: nat, left: nat, group: nat, last: schar, loc: Locale): string
    requires loc.Groups() && last > 0 && left > 0
  {
    if n < 10 then [] else PutGrouped(n / 10, left - 1, group, last, loc)
  }

  lemma PutDigit(n: nat, left: nat, group: nat, last: schar, loc: Locale)
    requires loc.Groups() && last > 0 && left > 0
    ensures PutGrouped(n, left, group, last, loc) == Head(n, left, group, last, loc) + [DigitChar(n % 10)]
    ensures Digits(n) == (if n < 10 then [] else Digits(n / 10)) + [DigitChar(n % 10)]
  {
  }

  /** A separator is written in front of the text that the next group begins. */
  lemma SeparatorLast(n: nat, group: nat, last: schar, loc: Locale)
    requires loc.Groups() && last > 0
    ensures var size := NextSize(loc, group + 1, last);
      PutGrouped(n, 0, group, last, loc) == PutGrouped(n, size as nat, group + 1, size, loc) + [loc.sep]
  {
  }

  /** `--finish; Traits::assign(*finish, c)` */
  method PutChar(buf: array<char>, ghost was: seq<char>, finish0: nat, ghost end: nat, c: char, ghost rest: string,
                 ghost total: string)
    returns (finish: nat)
    requires Filling(buf[..], was, finish0, end, rest + [c], total)
    modifies buf
    ensures finish == finish0 - 1
    ensures buf[..] == old(buf[..])[finish := c]
    ensures Filling(buf[..], was, finish, end, rest, total)
  {
    FillOne(buf[..], was, finish0, end, rest, c, total);
    finish := finish0 - 1;
    ghost var now := buf[..];
    buf[finish] := c;
    assert buf[..] == now[finish := c];
  }
}
