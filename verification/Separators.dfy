/** The tokenizer functions themselves: objects that move an iterator and keep a flag between calls. */
module Separators {
  import opened TokenSpec

  /** How a call ended. */
  datatype Status = Got | Finished | Threw(error: Error)

  /** The contract of a call: what it did to the input, the token and the flag. */
  ghost predicate Did(o: Outcome, text: string, status: Status, next: nat, tok: string, after: Separator) {
    next <= |text| &&
    match o
    case Token(rest, t, f) => status == Got && text[next..] == rest && tok == t && after == f
    case End(f) => status == Finished && next == |text| && after == f
    case Throw(e, rest, t, f) => status == Threw(e) && text[next..] == rest && tok == t && after == f
  }

  // ----- escaped_list_separator -----

  class EscapedListSeparator {
    const escape: string
    const c: string
    const quote: string
    var last: bool

    function State(): Separator
      reads this
    {
      EscapedList(escape, c, quote, last)
    }

    /** One character for each role. */
    constructor Chars(e: char, c: char, q: char)
      ensures State() == EscapedList([e], [c], [q], false)
    {
      this.escape, this.c, this.quote := [e], [c], [q];
      last := false;
    }

    constructor Strings(e: string, c: string, q: string)
      ensures State() == EscapedList(e, c, q, false)
    {
      this.escape, this.c, this.quote := e, c, q;
      last := false;
    }

    /** The copy a token iterator makes for itself. */
    constructor Copy(f: EscapedListSeparator)
      ensures State() == f.State()
    {
      this.escape, this.c, this.quote, this.last := f.escape, f.c, f.quote, f.last;
    }

    method Reset()
      modifies this`last
      ensures State() == old(State()).Reset() == EscapedList(escape, c, quote, false)
    {
      last := false;
    }

    /** Reads the character behind an escape; the iterator stays on it. */
    method DoEscape(text: string, next0: nat, tok0: string) returns (error: seq<Error>, next: nat, tok: string)
      requires next0 < |text|
      ensures next == next0 + 1
      ensures error == Escaping(State(), text, next)
      ensures tok == if error == [] then tok0 + Unescape(State(), text[next]) else tok0
      ensures error == [EndsWithEscape] <==> next == |text|
      ensures error == [UnknownEscape]
         <==> (next < |text| && text[next] != 'n'
               && text[next] !in quote && text[next] !in c && text[next] !in escape)
      ensures error == [] ==> next < |text| && tok == tok0 + [if text[next] == 'n' then '\n' else text[next]]
      ensures |error| <= 1
    {
      tok, error, next := tok0, [], next0 + 1;
      if next == |text| {
        error := [EndsWithEscape];
      } else if text[next] == 'n' {
        tok := tok + ['\n'];
      } else if text[next] in quote {
        tok := tok + [text[next]];
      } else if text[next] in c {
        tok := tok + [text[next]];
      } else if text[next] in escape {
        tok := tok + [text[next]];
      } else {
        error := [UnknownEscape];
      }
    }

    method Call(text: string, next0: nat) returns (status: Status, next: nat, tok: string)
      requires next0 <= |text|
      modifies this`last
      ensures Did(TokenSpec.Call(old(State()), text[next0..]), text, status, next, tok, State())
    {
      next, tok := next0, [];
      if next == |text| {
        if last {
          last := false;
          return Got, next, tok;
        }
        return Finished, next, tok;
      }
      last := false;
      SameScan(old(State()), State(), text[next..], false, []);
      status, next, tok := ReadField(text, next);
    }

    /** The loop over the characters of one field. */
    method ReadField(text: string, next0: nat) returns (status: Status, next: nat, tok: string)
      requires next0 <= |text| && !last
      modifies this`last
      ensures Did(Scan(old(State()), text[next0..], false, []), text, status, next, tok, State())
    {
      ghost var f := State();
      ghost var o := Ahead(f, text, next0, false, []);
      var inQuote := false;
      next, tok := next0, [];
      while next != |text|
        invariant next <= |text| && !last
        invariant Ahead(f, text, next, inQuote, tok) == o
      {
        var ch := text[next];
        if ch in escape {
          var error;
          error, next, tok := TakeEscape(text, next, inQuote, tok);
          if error != [] {
            return Threw(error[0]), next, tok;
          }
        } else if ch in c && !inQuote {
          SeparatorAt(f, text, next, tok);
          next := next + 1;
          // one more field is due
          last := true;
          return Got, next, tok;
        } else {
          inQuote, tok := TakeChar(text, next, inQuote, tok);
        }
        next := next + 1;
      }
      TextEnds(f, text, inQuote, tok);
      status := Got;
    }

    /** An escape sequence; the iterator stays on its last character. */
    method TakeEscape(text: string, next0: nat, ghost inQuote: bool, tok0: string)
      returns (error: seq<Error>, next: nat, tok: string)
      requires next0 < |text| && !last && text[next0] in escape
      ensures error != [] ==> Did(Ahead(State(), text, next0, inQuote, tok0), text, Threw(error[0]), next, tok, State())
      ensures error == [] ==> next0 < next < |text|
      ensures error == [] ==> Ahead(State(), text, next0, inQuote, tok0) == Ahead(State(), text, next + 1, inQuote, tok)
    {
      EscapeAt(State(), text, next0, inQuote, tok0);
      error, next, tok := DoEscape(text, next0, tok0);
    }

    /** A quote outside the token, or one more character of it. */
    method TakeChar(text: string, at: nat, inQuote0: bool, tok0: string) returns (inQuote: bool, tok: string)
      requires at < |text| && !last && text[at] !in escape && (text[at] in c ==> inQuote0)
      ensures Ahead(State(), text, at, inQuote0, tok0) == Ahead(State(), text, at + 1, inQuote, tok)
    {
      inQuote, tok := inQuote0, tok0;
      var ch := text[at];
      if ch !in c && ch in quote {
        QuoteAt(State(), text, at, inQuote, tok);
        inQuote := !inQuote;
      } else {
        PlainAt(State(), text, at, inQuote, tok);
        tok := tok + [ch];
      }
    }
  }

  /** What is wrong, if anything, with the character behind an escape. */
  function Escaping(f: Separator, text: string, at: nat): (error: seq<Error>)
    requires f.EscapedList? && at <= |text|
    ensures |error| <= 1
  {
    if at == |text| then [EndsWithEscape]
    else if Unescape(f, text[at]) == [] then [UnknownEscape]
    else []
  }

  /** How the call ends once the loop stands before text[i]. */
  ghost function Ahead(f: Separator, text: string, i: nat, inQuote: bool, tok: string): Outcome
    requires f.EscapedList? && !f.last && i <= |text|
  {
    Scan(f, text[i..], inQuote, tok)
  }

  // One turn of the loop, branch by branch.

  lemma EscapeAt(f: Separator, text: string, i: nat, inQuote: bool, tok: string)
    requires f.EscapedList? && !f.last && i < |text| && text[i] in f.escape
    ensures var o, error := Ahead(f, text, i, inQuote, tok), Escaping(f, text, i + 1);
      if error != [] then Did(o, text, Threw(error[0]), i + 1, tok, f)
      else o == Ahead(f, text, i + 2, inQuote, tok + Unescape(f, text[i + 1]))
  {
    Tail(text, i);
  }

  lemma SeparatorAt(f: Separator, text: string, i: nat, tok: string)
    requires f.EscapedList? && !f.last && i < |text| && text[i] !in f.escape && text[i] in f.c
    ensures Did(Ahead(f, text, i, false, tok), text, Got, i + 1, tok, f.(last := true))
  {
    Tail(text, i);
  }

  lemma QuoteAt(f: Separator, text: string, i: nat, inQuote: bool, tok: string)
    requires f.EscapedList? && !f.last && i < |text|
    requires text[i] !in f.escape && text[i] !in f.c && text[i] in f.quote
    ensures Ahead(f, text, i, inQuote, tok) == Ahead(f, text, i + 1, !inQuote, tok)
  {
    Tail(text, i);
  }

  lemma PlainAt(f: Separator, text: string, i: nat, inQuote: bool, tok: string)
    requires f.EscapedList? && !f.last && i < |text| && text[i] !in f.escape
    requires if text[i] in f.c then inQuote else text[i] !in f.quote
    ensures Ahead(f, text, i, inQuote, tok) == Ahead(f, text, i + 1, inQuote, tok + [text[i]])
  {
    Tail(text, i);
  }

  lemma TextEnds(f: Separator, text: string, inQuote: bool, tok: string)
    requires f.EscapedList? && !f.last
    ensures Did(Ahead(f, text, |text|, inQuote, tok), text, Got, |text|, tok, f)
  {
    assert text[|text|..] == [];
  }

  // ----- assign_or_plus_equal -----

  /** The category of the iterator: an input iterator can be read only once. */
  datatype IteratorTag = InputIterator | Rereadable

  function Clear(tag: IteratorTag, tok: string): string {
    if tag == InputIterator then [] else tok
  }

  function PlusEqual(tag: IteratorTag, tok: string, v: char): string {
    if tag == InputIterator then tok + [v] else tok
  }

  function Assign(tag: IteratorTag, text: string, start: nat, next: nat, tok: string): string
    requires start <= next <= |text|
  {
    if tag == InputIterator then tok else text[start..next]
  }

  // ----- char_separator -----

  class CharSeparator {
    const d: Delims
    var outputDone: bool

    function State(): Separator
      reads this
    {
      CharSep(d, outputDone)
    }

    constructor (d: Delims)
      ensures State() == CharSep(d, false)
    {
      this.d, outputDone := d, false;
    }

    constructor Copy(f: CharSeparator)
      ensures State() == f.State()
    {
      this.d, this.outputDone := f.d, f.outputDone;
    }

    /** `reset` does nothing: the flag survives. */
    method Reset()
      ensures State() == State().Reset()
    {
    }

    /**
     One call, for either kind of iterator: collecting the token character by character
     and assigning it at the end have the same outcome. When there is no token, the two
     differ in what they leave in `tok`.
     */
    method Call(tag: IteratorTag, text: string, next0: nat, tok0: string)
      returns (status: Status, next: nat, tok: string)
      requires next0 <= |text|
      modifies this`outputDone
      ensures Did(TokenSpec.Call(old(State()), text[next0..]), text, status, next, tok, State())
      ensures status == Finished ==> tok == if tag == InputIterator then [] else tok0
    {
      if d.keepEmpty {
        status, next, tok := CallKeeping(tag, text, next0, tok0);
      } else {
        status, next, tok := CallDropping(tag, text, next0, tok0);
      }
    }

    /** The branches for drop_empty_tokens. */
    method CallDropping(tag: IteratorTag, text: string, next0: nat, tok0: string)
      returns (status: Status, next: nat, tok: string)
      requires next0 <= |text| && !d.keepEmpty
      ensures Did(CallDropEmpty(State(), text[next0..]), text, status, next, tok, State())
      ensures status == Finished ==> tok == Clear(tag, tok0)
    {
      tok := Clear(tag, tok0);
      next := SkipPast(text, next0);
      var start := next;
      if next == |text| {
        return Finished, next, tok;
      }
      Tail(text, start);
      if d.IsKept(text[next]) {
        tok := PlusEqual(tag, tok, text[next]);
        next := next + 1;
        assert text[start..next] == [text[start]];
      } else {
        next, tok := TakeWord(tag, text, next, tok);
        Assigned(tag, text, start, next, Clear(tag, tok0));
      }
      tok := Assign(tag, text, start, next, tok);
      status := Got;
    }

    /** Skips past all dropped delimiters. */
    method SkipPast(text: string, next0: nat) returns (next: nat)
      requires next0 <= |text|
      ensures next <= |text| && text[next..] == SkipDropped(d, text[next0..])
    {
      next := next0;
      while next != |text| && d.IsDropped(text[next])
        invariant next <= |text|
        invariant SkipDropped(d, text[next..]) == SkipDropped(d, text[next0..])
      {
        Tail(text, next);
        next := next + 1;
      }
      if next < |text| {
        Tail(text, next);
      }
    }

    /** The branches for keep_empty_tokens. */
    method CallKeeping(tag: IteratorTag, text: string, next0: nat, tok0: string)
      returns (status: Status, next: nat, tok: string)
      requires next0 <= |text| && d.keepEmpty
      modifies this`outputDone
      ensures Did(CallKeepEmpty(old(State()), text[next0..]), text, status, next, tok, State())
      ensures status == Finished ==> tok == Clear(tag, tok0)
    {
      tok := Clear(tag, tok0);
      next := next0;
      var start := next;
      if next == |text| {
        if outputDone == false {
          outputDone := true;
          tok := Assign(tag, text, start, next, tok);
          return Got, next, tok;
        } else {
          return Finished, next, tok;
        }
      }
      Tail(text, next);
      if d.IsKept(text[next]) {
        if outputDone == false {
          outputDone := true;
        } else {
          tok := PlusEqual(tag, tok, text[next]);
          next := next + 1;
          outputDone := false;
          assert text[start..next] == [text[start]];
        }
      } else if outputDone == false && d.IsDropped(text[next]) {
        outputDone := true;
      } else {
        start, next, tok := TakeField(tag, text, next, tok);
        outputDone := true;
      }
      tok := Assign(tag, text, start, next, tok);
      status := Got;
    }

    /** Moves past a dropped delimiter, if there is one, and takes the word behind it. */
    method TakeField(tag: IteratorTag, text: string, next0: nat, tok0: string)
      returns (start: nat, next: nat, tok: string)
      requires next0 < |text|
      requires tag == InputIterator ==> tok0 == []
      ensures var s := text[next0..];
        var t := if d.IsDropped(s[0]) then s[1..] else s;
        var n := WordLength(d, t);
        && start <= next <= |text| && text[next..] == t[n..]
        && Assign(tag, text, start, next, tok) == t[..n]
    {
      Tail(text, next0);
      start := next0;
      if d.IsDropped(text[start]) {
        start := start + 1;
      }
      next, tok := TakeWord(tag, text, start, tok0);
      Assigned(tag, text, start, next, tok0);
    }

    /** Appends the characters up to the next delimiter. */
    method TakeWord(tag: IteratorTag, text: string, start: nat, tok0: string) returns (next: nat, tok: string)
      requires start <= |text|
      requires tag == InputIterator ==> tok0 == []
      ensures next == start + WordLength(d, text[start..]) <= |text|
      ensures tok == Collected(tag, text, start, next, tok0)
    {
      next, tok := start, tok0;
      while next != |text| && !d.IsDropped(text[next]) && !d.IsKept(text[next])
        invariant start <= next <= |text|
        invariant next - start + WordLength(d, text[next..]) == WordLength(d, text[start..])
        invariant tok == Collected(tag, text, start, next, tok0)
      {
        Tail(text, next);
        CollectOne(tag, text, start, next, tok0);
        tok := PlusEqual(tag, tok, text[next]);
        next := next + 1;
      }
    }
  }

  /** What `tok` holds once [start, next) has been passed to `plus_equal`. */
  function Collected(tag: IteratorTag, text: string, start: nat, next: nat, tok0: string): string
    requires start <= next <= |text|
  {
    if tag == InputIterator then text[start..next] else tok0
  }

  lemma CollectOne(tag: IteratorTag, text: string, start: nat, next: nat, tok0: string)
    requires start <= next < |text|
    ensures Collected(tag, text, start, next + 1, tok0)
         == PlusEqual(tag, Collected(tag, text, start, next, tok0), text[next])
  {
  }

  /** The final `assign` completes the token for either kind of iterator. */
  lemma Assigned(tag: IteratorTag, text: string, start: nat, next: nat, tok0: string)
    requires start <= next <= |text|
    ensures Assign(tag, text, start, next, Collected(tag, text, start, next, tok0)) == text[start..next]
    ensures text[start..][..next - start] == text[start..next]
    ensures text[start..][next - start..] == text[next..]
  {
  }
}
