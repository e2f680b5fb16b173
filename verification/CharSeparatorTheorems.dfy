/**
 What a whole run of `char_separator` yields, against a splitting of the input that knows
 nothing of iterators, flags or calls.
 */
module CharSeparatorTheorems {
  import opened TokenSpec

  /** Whether a character delimits, and whether the delimiter is a token of its own. */
  datatype Kind = Plain | Kept | Dropped

  /** For a character in both lists: kept when empty tokens are kept, dropped when they are dropped. */
  function KindOf(d: Delims, e: char): Kind
  {
    if d.IsPlain(e) then Plain
    else if d.keepEmpty then (if d.IsKept(e) then Kept else Dropped)
    else (if d.IsDropped(e) then Dropped else Kept)
  }

  // ----- The reference: split at every delimiter -----

  /** The fields between delimiters, empty ones too, each kept delimiter between two of them. */
  function Fields(d: Delims, s: string): (fs: seq<string>)
    ensures fs != []
    decreases |s|, 1
  {
    var n := WordLength(d, s);
    [s[..n]] + After(d, s[n..])
  }

  /** What follows a field: nothing, or a delimiter and more fields. */
  function After(d: Delims, s: string): seq<string>
    decreases |s|, 0
  {
    if s == [] then []
    else (if KindOf(d, s[0]) == Kept then [[s[0]]] else []) + Fields(d, s[1..])
  }

  /** How many characters of a kind there are. */
  function Count(d: Delims, s: string, k: Kind): nat
  {
    if s == [] then 0 else (if KindOf(d, s[0]) == k then 1 else 0) + Count(d, s[1..], k)
  }

  /** The delimiters of a string in order. */
  function Delimiters(d: Delims, s: string): string
  {
    if s == [] then []
    else (if KindOf(d, s[0]) == Plain then [] else [s[0]]) + Delimiters(d, s[1..])
  }

  /** The string without its dropped delimiters. */
  function WithoutDropped(d: Delims, s: string): string
  {
    if s == [] then []
    else (if KindOf(d, s[0]) == Dropped then [] else [s[0]]) + WithoutDropped(d, s[1..])
  }

  function Concat(toks: seq<string>): string {
    if toks == [] then [] else toks[0] + Concat(toks[1..])
  }

  /**
   Puts the delimiters back: a field, then its delimiter - from the list when it was
   dropped, from the tokens when it was kept - and so on.
   */
  function Rebuild(d: Delims, toks: seq<string>, delims: string): string
    decreases |toks|
  {
    if toks == [] then []
    else if delims == [] then toks[0]
    else if KindOf(d, delims[0]) == Kept && |toks| > 1 then toks[0] + (toks[1] + Rebuild(d, toks[2..], delims[1..]))
    else toks[0] + ([delims[0]] + Rebuild(d, toks[1..], delims[1..]))
  }

  // ----- Words -----

  lemma {:induction false} WordCounts(d: Delims, s: string, k: Kind)
    requires k != Plain
    ensures Count(d, s, k) == Count(d, s[WordLength(d, s)..], k)
  {
    if s != [] && d.IsPlain(s[0]) {
      WordCounts(d, s[1..], k);
      assert s[WordLength(d, s)..] == s[1..][WordLength(d, s[1..])..];
    }
  }

  lemma {:induction false} WordDelimiters(d: Delims, s: string)
    ensures Delimiters(d, s) == Delimiters(d, s[WordLength(d, s)..])
  {
    if s != [] && d.IsPlain(s[0]) {
      WordDelimiters(d, s[1..]);
      assert s[WordLength(d, s)..] == s[1..][WordLength(d, s[1..])..];
    }
  }

  lemma {:induction false} WordKept(d: Delims, s: string)
    ensures WithoutDropped(d, s) == s[..WordLength(d, s)] + WithoutDropped(d, s[WordLength(d, s)..])
  {
    if s != [] && d.IsPlain(s[0]) {
      var n := WordLength(d, s[1..]);
      WordKept(d, s[1..]);
      assert s[n + 1..] == s[1..][n..];
      assert s[..n + 1] == [s[0]] + s[1..][..n];
    }
  }

  // ----- keep_empty_tokens -----

  /** With the flag set, after a field, the run goes on with the delimiter. */
  lemma {:induction false} RunAfter(d: Delims, s: string)
    requires d.keepEmpty && (s == [] || !d.IsPlain(s[0]))
    ensures Run(CharSep(d, true), s) == Done(After(d, s))
    decreases |s|, 0
  {
    if s != [] {
      if d.IsKept(s[0]) {
        RunFields(d, s[1..]);
      } else {
        RunAfter(d, s[1..][WordLength(d, s[1..])..]);
      }
    }
  }

  /** With the flag clear, a field comes next, if only an empty one. */
  lemma {:induction false} RunFields(d: Delims, s: string)
    requires d.keepEmpty
    ensures Run(CharSep(d, false), s) == Done(Fields(d, s))
    decreases |s|, 1
  {
    RunAfter(d, s[WordLength(d, s)..]);
    FirstField(d, s);
  }

  lemma FirstField(d: Delims, s: string)
    requires d.keepEmpty
    ensures var n := WordLength(d, s);
      Call(CharSep(d, false), s) == Token(s[n..], s[..n], CharSep(d, true))
  {
    if s != [] && !d.IsPlain(s[0]) {
      assert s[0..] == s && s[..0] == [];
    }
  }

  /** A run over a non-empty input with a fresh separator yields exactly the fields. */
  lemma KeepEmptyIsFields(d: Delims, s: string)
    requires d.keepEmpty && s != []
    ensures Tokenize(CharSep(d, false), s) == Done(Fields(d, s))
  {
    RunFields(d, s);
  }

  /**
   `reset` does not clear the flag. A separator that has it set already loses the empty
   field in front of a leading delimiter, and nothing else.
   */
  lemma StaleFlag(d: Delims, s: string)
    requires d.keepEmpty && s != []
    ensures Tokenize(CharSep(d, true), s) == Done(if d.IsPlain(s[0]) then Fields(d, s) else Fields(d, s)[1..])
    ensures Tokenize(CharSep(d, true), s) == Tokenize(CharSep(d, false), s) <==> d.IsPlain(s[0])
  {
    RunFields(d, s);
    if d.IsPlain(s[0]) {
      RunAfter(d, s[WordLength(d, s)..]);
    } else {
      assert s[0..] == s;
      RunAfter(d, s);
    }
  }

  /** One token a field, and one more for each kept delimiter: the number is known beforehand. */
  lemma {:induction false} FieldCount(d: Delims, s: string)
    ensures |Fields(d, s)| == Count(d, s, Dropped) + 2 * Count(d, s, Kept) + 1
    decreases |s|
  {
    var t := s[WordLength(d, s)..];
    WordCounts(d, s, Dropped);
    WordCounts(d, s, Kept);
    if t != [] {
      FieldCount(d, t[1..]);
    }
  }

  lemma KeepEmptyCount(d: Delims, s: string)
    requires d.keepEmpty && s != []
    ensures var r := Tokenize(CharSep(d, false), s);
      r.Done? && |r.toks| == Count(d, s, Dropped) + 2 * Count(d, s, Kept) + 1
  {
    KeepEmptyIsFields(d, s);
    FieldCount(d, s);
  }

  /** Nothing is lost: the tokens, with the dropped delimiters put back in place, are the input. */
  lemma {:induction false} FieldsRebuild(d: Delims, s: string)
    ensures Rebuild(d, Fields(d, s), Delimiters(d, s)) == s
    decreases |s|
  {
    var n := WordLength(d, s);
    var w, t := s[..n], s[n..];
    WordDelimiters(d, s);
    assert s == w + t;
    if t != [] {
      FieldsRebuild(d, t[1..]);
      assert Delimiters(d, t) == [t[0]] + Delimiters(d, t[1..]);
      assert t == [t[0]] + t[1..];
      RebuildStep(d, w, t[0], Fields(d, t[1..]), Delimiters(d, t[1..]));
    }
  }

  lemma RebuildStep(d: Delims, w: string, x: char, fs: seq<string>, delims: string)
    requires !d.IsPlain(x) && fs != []
    ensures Rebuild(d, [w] + ((if KindOf(d, x) == Kept then [[x]] else []) + fs), [x] + delims)
         == w + ([x] + Rebuild(d, fs, delims))
  {
    var toks := [w] + ((if KindOf(d, x) == Kept then [[x]] else []) + fs);
    assert ([x] + delims)[1..] == delims;
    if KindOf(d, x) == Kept {
      assert toks[2..] == fs;
    } else {
      assert toks[1..] == fs;
    }
  }

  lemma KeepEmptyRebuilds(d: Delims, s: string)
    requires d.keepEmpty && s != []
    ensures var r := Tokenize(CharSep(d, false), s);
      r.Done? && Rebuild(d, r.toks, Delimiters(d, s)) == s
  {
    KeepEmptyIsFields(d, s);
    FieldsRebuild(d, s);
  }

  // ----- drop_empty_tokens -----

  function NonEmpty(toks: seq<string>): seq<string> {
    if toks == [] then []
    else (if toks[0] == [] then [] else [toks[0]]) + NonEmpty(toks[1..])
  }

  lemma NonEmptyCons(t: string, toks: seq<string>)
    ensures NonEmpty([t] + toks) == (if t == [] then [] else [t]) + NonEmpty(toks)
  {
    assert ([t] + toks)[1..] == toks;
  }

  /** The fields of a string that begins with a delimiter begin with an empty one. */
  lemma FieldsAtDelimiter(d: Delims, s: string)
    requires s == [] || !d.IsPlain(s[0])
    ensures Fields(d, s) == [[]] + After(d, s)
    ensures NonEmpty(Fields(d, s)) == NonEmpty(After(d, s))
  {
    assert s[0..] == s && s[..0] == [];
    NonEmptyCons([], After(d, s));
  }

  /** Skipping dropped delimiters loses empty fields only. */
  lemma {:induction false} SkippedFields(d: Delims, s: string)
    requires !d.keepEmpty
    ensures NonEmpty(Fields(d, s)) == NonEmpty(Fields(d, SkipDropped(d, s)))
  {
    if s != [] && d.IsDropped(s[0]) {
      SkippedFields(d, s[1..]);
      FieldsAtDelimiter(d, s);
      assert [] + Fields(d, s[1..]) == Fields(d, s[1..]);
    }
  }

  /**
   A run that drops empty tokens yields the fields that are not empty: every kept delimiter
   and every maximal word.
   */
  lemma {:induction false} DropEmptyIsFields(d: Delims, s: string, flag: bool)
    requires !d.keepEmpty
    ensures Run(CharSep(d, flag), s) == Done(NonEmpty(Fields(d, s)))
    decreases |s|
  {
    var t := SkipDropped(d, s);
    SkippedFields(d, s);
    FieldsAtDelimiter(d, []);
    if t != [] {
      if d.IsKept(t[0]) {
        DropEmptyIsFields(d, t[1..], flag);
        FieldsAtDelimiter(d, t);
        NonEmptyCons([t[0]], Fields(d, t[1..]));
      } else {
        var n := WordLength(d, t);
        DropEmptyIsFields(d, t[n..], flag);
        FieldsAtDelimiter(d, t[n..]);
        NonEmptyCons(t[..n], After(d, t[n..]));
      }
    }
  }

  /** A token is a kept delimiter by itself or made of characters that do not delimit. */
  predicate GoodToken(d: Delims, t: string) {
    || (|t| == 1 && KindOf(d, t[0]) == Kept)
    || forall i :: 0 <= i < |t| ==> d.IsPlain(t[i])
  }

  predicate AllGood(d: Delims, toks: seq<string>) {
    forall i :: 0 <= i < |toks| ==> GoodToken(d, toks[i])
  }

  lemma AllGoodAppend(d: Delims, a: seq<string>, b: seq<string>)
    requires AllGood(d, a) && AllGood(d, b)
    ensures AllGood(d, a + b)
  {
  }

  lemma {:induction false} FieldsGood(d: Delims, s: string)
    ensures AllGood(d, Fields(d, s))
    decreases |s|
  {
    var n := WordLength(d, s);
    var t := s[n..];
    assert GoodToken(d, s[..n]);
    if t != [] {
      FieldsGood(d, t[1..]);
      AllGoodAppend(d, if KindOf(d, t[0]) == Kept then [[t[0]]] else [], Fields(d, t[1..]));
    }
    AllGoodAppend(d, [s[..n]], After(d, t));
  }

  lemma {:induction false} NonEmptyGood(d: Delims, toks: seq<string>)
    requires AllGood(d, toks)
    ensures forall i :: 0 <= i < |NonEmpty(toks)| ==> NonEmpty(toks)[i] != [] && GoodToken(d, NonEmpty(toks)[i])
  {
    if toks != [] {
      NonEmptyGood(d, toks[1..]);
    }
  }

  lemma {:induction false} ConcatNonEmpty(toks: seq<string>)
    ensures Concat(NonEmpty(toks)) == Concat(toks)
  {
    if toks != [] {
      ConcatNonEmpty(toks[1..]);
      ConcatAppend(if toks[0] == [] then [] else [toks[0]], NonEmpty(toks[1..]));
    }
  }

  lemma ConcatAppend(a: seq<string>, b: seq<string>)
    requires |a| <= 1
    ensures Concat(a + b) == (if a == [] then [] else a[0]) + Concat(b)
  {
    if a == [] {
      assert a + b == b;
    } else {
      assert (a + b)[1..] == b;
    }
  }

  /** The fields spell the input without its dropped delimiters. */
  lemma {:induction false} ConcatFields(d: Delims, s: string)
    ensures Concat(Fields(d, s)) == WithoutDropped(d, s)
    decreases |s|
  {
    var n := WordLength(d, s);
    var t := s[n..];
    WordKept(d, s);
    ConcatAppend([s[..n]], After(d, t));
    if t != [] {
      ConcatFields(d, t[1..]);
      ConcatAppend(if KindOf(d, t[0]) == Kept then [[t[0]]] else [], Fields(d, t[1..]));
    }
  }

  /**
   Dropping empty tokens: every token is non-empty, a kept delimiter or a word, and together
   they are the input with the dropped delimiters taken out.
   */
  lemma DropEmptyTokens(d: Delims, s: string, flag: bool)
    requires !d.keepEmpty
    ensures var r := Tokenize(CharSep(d, flag), s);
      && r == Done(NonEmpty(Fields(d, s)))
      && (forall i :: 0 <= i < |r.toks| ==> r.toks[i] != [] && GoodToken(d, r.toks[i]))
      && Concat(r.toks) == WithoutDropped(d, s)
  {
    DropEmptyIsFields(d, s, flag);
    FieldsAtDelimiter(d, []);
    FieldsGood(d, s);
    NonEmptyGood(d, Fields(d, s));
    ConcatNonEmpty(Fields(d, s));
    ConcatFields(d, s);
  }
}
