/**
 What `char_separator` yields, said of the characters it was given: K are the kept ones
 and D the dropped ones, from the lists where they are not empty and from the character
 classes where they are empty and the class is in use.
 */
module CharSeparatorLists {
  import opened TokenSpec
  import opened CharSeparatorTheorems

  /** The input split at every character of K and D; one in both is kept if `keptFirst`. */
  function SplitAt(s: string, K: set<char>, D: set<char>, keptFirst: bool): (fs: seq<string>)
    ensures fs != []
  {
    if s == [] then [[]]
    else
      var c, fs := s[0], SplitAt(s[1..], K, D, keptFirst);
      if c in K && (keptFirst || c !in D) then [[], [c]] + fs
      else if c in D then [[]] + fs
      else [[c] + fs[0]] + fs[1..]
  }

  /** The characters of s that are not in D, in order. */
  function Filter(s: string, D: set<char>): string {
    if s == [] then [] else (if s[0] in D then [] else [s[0]]) + Filter(s[1..], D)
  }

  /** How many characters of s are in D. */
  function Occurrences(s: string, D: set<char>): nat {
    if s == [] then 0 else (if s[0] in D then 1 else 0) + Occurrences(s[1..], D)
  }

  // ----- The fields are the splitting -----

  /** d classifies characters as K and D do. */
  ghost predicate Classifies(d: Delims, K: set<char>, D: set<char>) {
    forall e :: (d.IsKept(e) <==> e in K) && (d.IsDropped(e) <==> e in D)
  }

  lemma {:induction false} FieldsSplit(d: Delims, s: string, K: set<char>, D: set<char>)
    requires Classifies(d, K, D)
    ensures Fields(d, s) == SplitAt(s, K, D, d.keepEmpty)
    decreases |s|
  {
    if s != [] {
      FieldsSplit(d, s[1..], K, D);
      if d.IsPlain(s[0]) {
        FieldsCons(d, s);
      } else {
        FieldsAtDelimiter(d, s);
      }
    }
  }

  lemma FieldsCons(d: Delims, s: string)
    requires s != [] && d.IsPlain(s[0])
    ensures Fields(d, s) == [[s[0]] + Fields(d, s[1..])[0]] + Fields(d, s[1..])[1..]
  {
    var n := WordLength(d, s[1..]);
    assert s[n + 1..] == s[1..][n..];
    assert s[..n + 1] == [s[0]] + s[1..][..n];
  }

  lemma ListsClassify(d: Delims, K: set<char>, D: set<char>)
    requires K == if d.kept != [] then (set c | c in d.kept) else if d.usePunct then d.punct else {}
    requires D == if d.dropped != [] then (set c | c in d.dropped) else if d.useSpace then d.space else {}
    ensures Classifies(d, K, D)
  {
  }

  // ----- What a splitting is made of -----

  lemma {:induction false} SplitCount(s: string, K: set<char>, D: set<char>)
    ensures |SplitAt(s, K, D, true)| == Occurrences(s, D - K) + 2 * Occurrences(s, K) + 1
  {
    if s != [] {
      SplitCount(s[1..], K, D);
    }
  }

  /** Tokens are single kept characters, or have no delimiter in them. */
  ghost predicate Clean(toks: seq<string>, K: set<char>, D: set<char>) {
    forall t :: t in toks ==> (|t| == 1 && t[0] in K) || forall c :: c in t ==> c !in K && c !in D
  }

  lemma {:induction false} SplitClean(s: string, K: set<char>, D: set<char>, keptFirst: bool)
    ensures Clean(SplitAt(s, K, D, keptFirst), if keptFirst then K else K - D, K + D)
  {
    if s != [] {
      SplitClean(s[1..], K, D, keptFirst);
    }
  }

  /** Only dropped characters are lost. */
  lemma {:induction false} SplitConcat(s: string, K: set<char>, D: set<char>, keptFirst: bool)
    ensures Concat(SplitAt(s, K, D, keptFirst)) == Filter(s, if keptFirst then D - K else D)
  {
    if s != [] {
      SplitConcat(s[1..], K, D, keptFirst);
      var c, fs := s[0], SplitAt(s[1..], K, D, keptFirst);
      ConcatTwo([], [c], fs);
      assert ([[]] + fs)[1..] == fs;
      ConcatFirst(c, fs);
    }
  }

  lemma ConcatTwo(a: string, b: string, fs: seq<string>)
    ensures Concat([a, b] + fs) == a + (b + Concat(fs))
  {
    assert ([a, b] + fs)[1..] == [b] + fs;
    assert ([b] + fs)[1..] == fs;
  }

  lemma ConcatFirst(c: char, fs: seq<string>)
    requires fs != []
    ensures Concat([[c] + fs[0]] + fs[1..]) == [c] + Concat(fs)
  {
    assert ([[c] + fs[0]] + fs[1..])[1..] == fs[1..];
    assert ([c] + fs[0]) + Concat(fs[1..]) == [c] + (fs[0] + Concat(fs[1..]));
  }

  lemma {:induction false} NonEmptyClean(toks: seq<string>, K: set<char>, D: set<char>)
    requires Clean(toks, K, D)
    ensures Clean(NonEmpty(toks), K, D) && [] !in NonEmpty(toks)
  {
    if toks != [] {
      assert forall t :: t in toks[1..] ==> t in toks;
      NonEmptyClean(toks[1..], K, D);
    }
  }

  lemma NoDropped(toks: seq<string>, K: set<char>, D: set<char>)
    requires Clean(toks, K - D, K + D)
    ensures forall t, c :: t in toks && c in t ==> c !in D
  {
  }

  // ----- The theorems -----

  /**
   Keeping empty tokens: the input is split at every delimiter. The tokens number one more
   than the dropped delimiters and twice the kept ones; a character in both lists is kept.
   */
  lemma KeepEmptyLists(d: Delims, s: string, K: set<char>, D: set<char>)
    requires d.keepEmpty && s != []
    requires K == if d.kept != [] then (set c | c in d.kept) else if d.usePunct then d.punct else {}
    requires D == if d.dropped != [] then (set c | c in d.dropped) else if d.useSpace then d.space else {}
    ensures var r := Tokenize(CharSep(d, false), s);
      && r == Done(SplitAt(s, K, D, true))
      && |r.toks| == Occurrences(s, D - K) + 2 * Occurrences(s, K) + 1
      && Clean(r.toks, K, K + D)
      && Concat(r.toks) == Filter(s, D - K)
  {
    ListsClassify(d, K, D);
    KeepEmptyIsFields(d, s);
    FieldsSplit(d, s, K, D);
    SplitCount(s, K, D);
    SplitClean(s, K, D, true);
    SplitConcat(s, K, D, true);
  }

  /**
   Dropping empty tokens: the same splitting, without its empty fields. No token contains a
   dropped character, and they spell the input without those; a character in both lists is dropped.
   */
  lemma DropEmptyLists(d: Delims, s: string, flag: bool, K: set<char>, D: set<char>)
    requires !d.keepEmpty
    requires K == if d.kept != [] then (set c | c in d.kept) else if d.usePunct then d.punct else {}
    requires D == if d.dropped != [] then (set c | c in d.dropped) else if d.useSpace then d.space else {}
    ensures var r := Tokenize(CharSep(d, flag), s);
      && r == Done(NonEmpty(SplitAt(s, K, D, false)))
      && (forall t, c :: t in r.toks && c in t ==> c !in D)
      && [] !in r.toks && Clean(r.toks, K - D, K + D)
      && Concat(r.toks) == Filter(s, D)
  {
    ListsClassify(d, K, D);
    DropEmptyTokens(d, s, flag);
    FieldsSplit(d, s, K, D);
    var fs := SplitAt(s, K, D, false);
    SplitClean(s, K, D, false);
    NonEmptyClean(fs, K - D, K + D);
    NoDropped(NonEmpty(fs), K, D);
    ConcatNonEmpty(fs);
    SplitConcat(s, K, D, false);
  }
}
