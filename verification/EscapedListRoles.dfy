/**
 What `escaped_list_separator` makes of any text, said position by position: which
 characters are escaped, which stand between quotes, where a field ends and where the
 text is at fault. Calls and flags play no part in it.
 */
module EscapedListRoles {
  import opened TokenSpec

  /** The character before this one is an escape and not escaped itself. */
  predicate Escaped(f: Separator, s: string, i: nat)
    requires f.EscapedList? && i <= |s|
  {
    i > 0 && !Escaped(f, s, i - 1) && s[i - 1] in f.escape
  }

  predicate QuoteMark(f: Separator, s: string, i: nat)
    requires f.EscapedList? && i < |s|
  {
    !Escaped(f, s, i) && s[i] !in f.escape && s[i] !in f.c && s[i] in f.quote
  }

  /** An odd number of quote marks stands to the left. */
  predicate Quoted(f: Separator, s: string, i: nat)
    requires f.EscapedList? && i <= |s|
  {
    i > 0 && Quoted(f, s, i - 1) != QuoteMark(f, s, i - 1)
  }

  /** A separator that ends a field: it is neither escaped nor between quotes. */
  predicate Breaks(f: Separator, s: string, i: nat)
    requires f.EscapedList? && i < |s|
  {
    !Escaped(f, s, i) && s[i] !in f.escape && s[i] in f.c && !Quoted(f, s, i)
  }

  /** An escape with nothing behind it, or with a character that it cannot stand before. */
  predicate Faulty(f: Separator, s: string, i: nat)
    requires f.EscapedList? && i <= |s|
  {
    Escaped(f, s, i)
    && (i < |s| ==> s[i] != 'n' && s[i] !in f.escape && s[i] !in f.c && s[i] !in f.quote)
  }

  function ErrorAt(s: string, i: nat): Error {
    if i == |s| then EndsWithEscape else UnknownEscape
  }

  /** What the character contributes to its field. */
  function Spelled(f: Separator, s: string, i: nat): string
    requires f.EscapedList? && i < |s|
  {
    if Escaped(f, s, i) then [if s[i] == 'n' then '\n' else s[i]]
    else if s[i] in f.escape || Breaks(f, s, i) || QuoteMark(f, s, i) then []
    else [s[i]]
  }

  /** The fields of the characters from i to k. */
  function Split(f: Separator, s: string, i: nat, k: nat): (fields: seq<string>)
    requires f.EscapedList? && i <= k <= |s|
    ensures fields != []
    decreases k - i
  {
    if i == k then [[]]
    else if Breaks(f, s, i) then [[]] + Split(f, s, i + 1, k)
    else Prefixed(Spelled(f, s, i), Split(f, s, i + 1, k))
  }

  /** More text at the front of the first field. */
  function Prefixed(tok: string, fields: seq<string>): (r: seq<string>)
    requires fields != []
    ensures |r| == |fields|
  {
    [tok + fields[0]] + fields[1..]
  }

  lemma PrefixedTwice(a: string, b: string, fields: seq<string>)
    requires fields != []
    ensures Prefixed(a, Prefixed(b, fields)) == Prefixed(a + b, fields)
  {
    assert a + (b + fields[0]) == (a + b) + fields[0];
  }

  lemma PrefixedNothing(fields: seq<string>)
    requires fields != []
    ensures Prefixed([], fields) == fields
  {
    assert [] + fields[0] == fields[0];
  }

  // ----- What the run makes of it -----

  /** How a run ends that has come to k: at the end of the text, or at its first fault. */
  function Verdict(f: Separator, s: string, k: nat, fields: seq<string>): Tokens
    requires f.EscapedList? && k <= |s| && fields != []
  {
    if Faulty(f, s, k) then Failed(fields[..|fields| - 1], ErrorAt(s, k)) else Done(fields)
  }

  /** The end of the text or the first fault from i on, whichever comes first. */
  ghost predicate Stops(f: Separator, s: string, i: nat, k: nat)
    requires f.EscapedList?
  {
    && i <= k <= |s|
    && (Faulty(f, s, k) || k == |s|)
    && forall j :: i <= j < k ==> !Faulty(f, s, j)
  }

  /** The run that goes on behind a call. */
  function After(o: Outcome): Tokens {
    match o
    case Token(rest, tok, f) => Cons(tok, Run(f, rest))
    case End(_) => Done([])
    case Throw(e, _, _, _) => Failed([], e)
  }

  /** A field that is due is read from whatever is left, even from nothing. */
  lemma RunDue(f: Separator, s: string)
    requires f.EscapedList? && !f.last
    ensures Run(f.(last := true), s) == After(Scan(f, s, false, []))
  {
    SameScan(f.(last := true), f, s, false, []);
  }

  lemma {:induction false} ScanMeaning(f: Separator, s: string, i: nat, k: nat, tok: string)
    requires f.EscapedList? && !f.last && Stops(f, s, i, k) && !Escaped(f, s, i)
    ensures After(Scan(f, s[i..], Quoted(f, s, i), tok)) == Verdict(f, s, k, Prefixed(tok, Split(f, s, i, k)))
    decreases |s| - i
  {
    if i == |s| {
      ScanEnds(f, s, tok);
    } else if s[i] in f.escape {
      if Faulty(f, s, i + 1) {
        FaultMeaning(f, s, i, tok);
      } else {
        ScanMeaning(f, s, i + 2, k, tok + Unescape(f, s[i + 1]));
        EscapeMeaning(f, s, i, k, tok);
      }
    } else if Breaks(f, s, i) {
      ScanMeaning(f, s, i + 1, k, []);
      BreakMeaning(f, s, i, k, tok);
    } else {
      ScanMeaning(f, s, i + 1, k, tok + Spelled(f, s, i));
      CharMeaning(f, s, i, k, tok);
    }
  }

  lemma ScanEnds(f: Separator, s: string, tok: string)
    requires f.EscapedList? && !f.last && !Escaped(f, s, |s|)
    ensures After(Scan(f, s[|s|..], Quoted(f, s, |s|), tok))
         == Verdict(f, s, |s|, Prefixed(tok, Split(f, s, |s|, |s|)))
  {
    assert s[|s|..] == [];
    assert Run(f, []) == Done([]);
    assert tok + [] == tok;
  }

  /** A fault right behind position i. */
  lemma FaultMeaning(f: Separator, s: string, i: nat, tok: string)
    requires f.EscapedList? && !f.last && i < |s| && !Escaped(f, s, i) && s[i] in f.escape && Faulty(f, s, i + 1)
    ensures After(Scan(f, s[i..], Quoted(f, s, i), tok)) == Failed([], ErrorAt(s, i + 1))
    ensures |Split(f, s, i, i + 1)| == 1
  {
    Tail(s, i);
  }

  lemma EscapeMeaning(f: Separator, s: string, i: nat, k: nat, tok: string)
    requires f.EscapedList? && !f.last && i + 2 <= k <= |s|
    requires !Escaped(f, s, i) && s[i] in f.escape && !Faulty(f, s, i + 1)
    ensures Scan(f, s[i..], Quoted(f, s, i), tok)
         == Scan(f, s[i + 2..], Quoted(f, s, i + 2), tok + Unescape(f, s[i + 1]))
    ensures Prefixed(tok, Split(f, s, i, k)) == Prefixed(tok + Unescape(f, s[i + 1]), Split(f, s, i + 2, k))
  {
    Tail(s, i);
    PrefixedNothing(Split(f, s, i + 1, k));
    PrefixedTwice(tok, Unescape(f, s[i + 1]), Split(f, s, i + 2, k));
  }

  lemma BreakMeaning(f: Separator, s: string, i: nat, k: nat, tok: string)
    requires f.EscapedList? && !f.last && i < k <= |s| && Breaks(f, s, i)
    requires After(Scan(f, s[i + 1..], false, [])) == Verdict(f, s, k, Prefixed([], Split(f, s, i + 1, k)))
    ensures After(Scan(f, s[i..], false, tok)) == Verdict(f, s, k, Prefixed(tok, Split(f, s, i, k)))
  {
    var fields := Split(f, s, i + 1, k);
    Tail(s, i);
    RunDue(f, s[i + 1..]);
    PrefixedNothing(fields);
    assert tok + [] == tok;
    assert Prefixed(tok, [[]] + fields) == [tok] + fields;
    assert ([tok] + fields)[..|fields|] == [tok] + fields[..|fields| - 1];
  }

  lemma CharMeaning(f: Separator, s: string, i: nat, k: nat, tok: string)
    requires f.EscapedList? && !f.last && i < k <= |s|
    requires !Escaped(f, s, i) && s[i] !in f.escape && !Breaks(f, s, i)
    ensures Scan(f, s[i..], Quoted(f, s, i), tok) == Scan(f, s[i + 1..], Quoted(f, s, i + 1), tok + Spelled(f, s, i))
    ensures Prefixed(tok, Split(f, s, i, k)) == Prefixed(tok + Spelled(f, s, i), Split(f, s, i + 1, k))
  {
    Tail(s, i);
    PrefixedTwice(tok, Spelled(f, s, i), Split(f, s, i + 1, k));
    assert tok + [] == tok;
  }

  // ----- The theorems -----

  /**
   The tokens of any text but the empty one: its fields, if it has no fault; otherwise the
   fields that were complete before the first fault, and the error of that fault.
   */
  lemma TokenizeMeaning(f: Separator, s: string, k: nat)
    requires f.EscapedList? && s != [] && Stops(f.Reset(), s, 0, k)
    ensures var g := f.Reset();
      var fields := Split(g, s, 0, k);
      Tokenize(f, s) == if Faulty(g, s, k) then Failed(fields[..|fields| - 1], ErrorAt(s, k)) else Done(fields)
  {
    var g := f.Reset();
    ScanMeaning(g, s, 0, k, []);
    PrefixedNothing(Split(g, s, 0, k));
    assert s[0..] == s;
    assert Run(g, s) == After(Scan(g, s, false, []));
  }

  /** There is always such a place. */
  lemma {:induction false} SomewhereStops(f: Separator, s: string, i: nat) returns (k: nat)
    requires f.EscapedList? && i <= |s|
    ensures Stops(f, s, i, k)
    decreases |s| - i
  {
    k := i;
    if !Faulty(f, s, i) && i < |s| {
      k := SomewhereStops(f, s, i + 1);
    }
  }

  /** A run throws exactly when some escape is at fault, between quotes or not. */
  lemma ThrowsIff(f: Separator, s: string)
    requires f.EscapedList?
    ensures Tokenize(f, s).Failed? <==> exists i: nat :: i <= |s| && Faulty(f.Reset(), s, i)
  {
    if s != [] {
      var k := SomewhereStops(f.Reset(), s, 0);
      TokenizeMeaning(f, s, k);
    }
  }

  ghost function BreaksBetween(f: Separator, s: string, i: nat, k: nat): set<nat>
    requires f.EscapedList? && i <= k <= |s|
  {
    set j: nat | i <= j < k && Breaks(f, s, j)
  }

  lemma {:induction false} SplitCount(f: Separator, s: string, i: nat, k: nat)
    requires f.EscapedList? && i <= k <= |s|
    ensures |Split(f, s, i, k)| == |BreaksBetween(f, s, i, k)| + 1
    decreases k - i
  {
    if i < k {
      SplitCount(f, s, i + 1, k);
      var rest := BreaksBetween(f, s, i + 1, k);
      assert BreaksBetween(f, s, i, k) == if Breaks(f, s, i) then {i} + rest else rest;
      assert i !in rest;
    } else {
      assert BreaksBetween(f, s, i, k) == {};
    }
  }

  /** A run that ends well over some input yields one token more than separators outside quotes and escapes. */
  lemma TokenCount(f: Separator, s: string)
    requires f.EscapedList? && s != [] && Tokenize(f, s).Done?
    ensures |Tokenize(f, s).toks| == |BreaksBetween(f.Reset(), s, 0, |s|)| + 1
    ensures Tokenize(f, s) == Done(Split(f.Reset(), s, 0, |s|))
  {
    var k := SomewhereStops(f.Reset(), s, 0);
    TokenizeMeaning(f, s, k);
    SplitCount(f.Reset(), s, 0, |s|);
  }
}
