/**
 What one call of a tokenizer function does to the rest of the input, and what a whole
 run of the token iterator yields. The rest of the input is what stands between the
 iterator and the end.
 */
module TokenSpec {

  datatype Error = EndsWithEscape | UnknownEscape

  /** What `char_separator` is told about delimiters; `punct` and `space` stand for the C library's classes. */
  datatype Delims = Delims(kept: string, dropped: string, usePunct: bool, useSpace: bool, punct: set<char>,
                           space: set<char>, keepEmpty: bool)
  {
    /** `is_kept`: an empty list of delimiters may defer to `ispunct`. */
    predicate IsKept(e: char) {
      if kept != [] then e in kept else usePunct && e in punct
    }

    predicate IsDropped(e: char) {
      if dropped != [] then e in dropped else useSpace && e in space
    }

    predicate IsPlain(e: char) {
      !IsKept(e) && !IsDropped(e)
    }
  }

  /** The state of a tokenizer function; calls change only the last field of each. */
  datatype Separator =
    | EscapedList(escape: string, c: string, quote: string, last: bool)
    | CharSep(d: Delims, outputDone: bool)
  {
    /** The state can yield one more token without consuming input. */
    predicate Pending() {
      if EscapedList? then last else !outputDone
    }

    function Reset(): (f: Separator)
      ensures EscapedList? ==> f == EscapedList(escape, c, quote, false)
      ensures CharSep? ==> f == this
    {
      if EscapedList? then this.(last := false) else this
    }
  }

  /** How a call ends; an exception leaves the iterator and the token where they were when it was thrown. */
  datatype Outcome =
    | Token(rest: string, tok: string, sep: Separator)
    | End(final: Separator)
    | Throw(error: Error, rest: string, tok: string, sep: Separator)

  // ----- escaped_list_separator -----

  /** The character an escape sequence stands for. */
  function Unescape(f: Separator, d: char): (r: seq<char>)
    requires f.EscapedList?
    ensures |r| <= 1
  {
    if d == 'n' then ['\n']
    else if d in f.quote || d in f.c || d in f.escape then [d]
    else []
  }

  /** The loop over the characters of one field. */
  function Scan(f: Separator, s: string, inQuote: bool, tok: string): (o: Outcome)
    requires f.EscapedList?
    ensures !o.End?
    ensures o.Token? ==> |o.rest| <= |s| && (s != [] ==> |o.rest| < |s|) && (o.sep.Pending() ==> |o.rest| < |s|)
    ensures o.Token? ==> o.sep.EscapedList? && o.sep == f.(last := o.sep.last)
    ensures o.Throw? ==> o.sep == f.(last := false) && |o.rest| < |s|
    decreases |s|
  {
    if s == [] then Token([], tok, f.(last := false))
    else if s[0] in f.escape then
      if |s| == 1 then Throw(EndsWithEscape, [], tok, f.(last := false))
      else if Unescape(f, s[1]) == [] then Throw(UnknownEscape, s[1..], tok, f.(last := false))
      else Scan(f, s[2..], inQuote, tok + Unescape(f, s[1]))
    else if s[0] in f.c then
      if inQuote then Scan(f, s[1..], inQuote, tok + [s[0]]) else Token(s[1..], tok, f.(last := true))
    else if s[0] in f.quote then Scan(f, s[1..], !inQuote, tok)
    else Scan(f, s[1..], inQuote, tok + [s[0]])
  }

  /** The rest of the input before text[i], one character at a time. */
  lemma Tail(text: string, i: nat)
    requires i < |text|
    ensures |text[i..]| == |text| - i && text[i..][0] == text[i] && text[i..][1..] == text[i + 1..]
    ensures i + 1 < |text| ==> text[i..][1] == text[i + 1] && text[i..][2..] == text[i + 2..]
  {
  }

  /** The flag does not matter to the loop. */
  lemma {:induction false} SameScan(f: Separator, g: Separator, s: string, inQuote: bool, tok: string)
    requires f.EscapedList? && g == f.(last := false)
    ensures Scan(f, s, inQuote, tok) == Scan(g, s, inQuote, tok)
    decreases |s|
  {
    if s != [] {
      if s[0] in f.escape {
        if |s| > 1 {
          SameScan(f, g, s[2..], inQuote, tok + Unescape(f, s[1]));
        }
      } else if s[0] in f.c {
        SameScan(f, g, s[1..], inQuote, tok + [s[0]]);
      } else if s[0] in f.quote {
        SameScan(f, g, s[1..], !inQuote, tok);
      } else {
        SameScan(f, g, s[1..], inQuote, tok + [s[0]]);
      }
    }
  }

  function CallEscaped(f: Separator, s: string): (o: Outcome)
    requires f.EscapedList?
  {
    if s == [] then (if f.last then Token([], [], f.(last := false)) else End(f))
    else Scan(f, s, false, [])
  }

  // ----- char_separator -----

  function SkipDropped(d: Delims, s: string): (t: string)
    ensures |t| <= |s| && (t != [] ==> !d.IsDropped(t[0]))
  {
    if s != [] && d.IsDropped(s[0]) then SkipDropped(d, s[1..]) else s
  }

  /** The length of the longest run of characters that are no delimiters. */
  function WordLength(d: Delims, s: string): (n: nat)
    ensures n <= |s| && (n < |s| ==> !d.IsPlain(s[n]))
    ensures forall i :: 0 <= i < n ==> d.IsPlain(s[i])
  {
    if s == [] || !d.IsPlain(s[0]) then 0 else 1 + WordLength(d, s[1..])
  }

  function CallDropEmpty(f: Separator, s: string): (o: Outcome)
    requires f.CharSep?
  {
    var t := SkipDropped(f.d, s);
    if t == [] then End(f)
    else if f.d.IsKept(t[0]) then Token(t[1..], [t[0]], f)
    else
      var n := WordLength(f.d, t);
      Token(t[n..], t[..n], f)
  }

  function CallKeepEmpty(f: Separator, s: string): (o: Outcome)
    requires f.CharSep?
  {
    var done := f.(outputDone := true);
    if s == [] then (if f.outputDone then End(f) else Token([], [], done))
    else if f.d.IsKept(s[0]) then
      if f.outputDone then Token(s[1..], [s[0]], f.(outputDone := false)) else Token(s, [], done)
    else if !f.outputDone && f.d.IsDropped(s[0]) then Token(s, [], done)
    else
      var t := if f.d.IsDropped(s[0]) then s[1..] else s;
      var n := WordLength(f.d, t);
      Token(t[n..], t[..n], done)
  }

  // ----- A run -----

  /**
   One call. It either consumes input or clears the pending flag, so a run ends: that is
   the measure (characters left, pending).
   */
  function Call(f: Separator, s: string): (o: Outcome)
    ensures o.Token? ==> |o.rest| < |s| || (|o.rest| == |s| && f.Pending() && !o.sep.Pending())
  {
    if f.EscapedList? then CallEscaped(f, s)
    else if f.d.keepEmpty then CallKeepEmpty(f, s)
    else CallDropEmpty(f, s)
  }

  /** The tokens of a run; a run that throws keeps those before the exception. */
  datatype Tokens = Done(toks: seq<string>) | Failed(before: seq<string>, error: Error)

  function Cons(tok: string, r: Tokens): Tokens {
    match r
    case Done(toks) => Done([tok] + toks)
    case Failed(before, e) => Failed([tok] + before, e)
  }

  /** Calls until the function returns false. */
  function Run(f: Separator, s: string): (r: Tokens)
    decreases |s|, f.Pending()
  {
    match Call(f, s)
    case Token(rest, tok, f') => Cons(tok, Run(f', rest))
    case End(_) => Done([])
    case Throw(e, _, _, _) => Failed([], e)
  }

  /** A whole iteration from `begin()`: an empty input makes no call at all. */
  function Tokenize(f: Separator, s: string): (r: Tokens) {
    if s == [] then Done([]) else Run(f.Reset(), s)
  }
}
