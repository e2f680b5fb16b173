/** `token_iterator`: turns one-token calls into a run over the input. */
module TokenIterators {
  import opened TokenSpec
  import opened Separators
  import opened EscapedListTheorems

  /** The function object a token iterator owns; for `char_separator`, also the category of its iterators. */
  datatype TokenizerFunc = Escaped(esc: EscapedListSeparator) | Chars(chr: CharSeparator, tag: IteratorTag) {
    function Object(): object {
      if Escaped? then esc else chr
    }

    ghost function State(): Separator
      reads Object()
    {
      if Escaped? then esc.State() else chr.State()
    }
  }

  /** The iterator holds its function object by value. */
  method CopyOf(g: TokenizerFunc) returns (h: TokenizerFunc)
    ensures fresh(h.Object()) && h.State() == g.State()
  {
    if g.Escaped? {
      var e := new EscapedListSeparator.Copy(g.esc);
      h := Escaped(e);
    } else {
      var c := new CharSeparator.Copy(g.chr);
      h := Chars(c, g.tag);
    }
  }

  class TokenIterator {
    var f: TokenizerFunc
    const text: string  // begin_ and end_ point into it
    var begin: nat
    var valid: bool
    var tok: string

    ghost predicate Valid()
      reads this
    {
      begin <= |text| && f.Object() != this
    }

    /** The tokens from the current one to the end. */
    ghost function Remaining(): Tokens
      requires Valid()
      reads this, f.Object()
    {
      if valid then Cons(tok, Run(f.State(), text[begin..])) else Done([])
    }

    /** The members before the constructor body: a copy of the function object, and no token yet. */
    constructor (g: TokenizerFunc, text: string)
      ensures Valid() && fresh(f.Object())
      ensures this.text == text && begin == 0 && !valid && tok == []
      ensures f.State() == g.State()
    {
      var h := CopyOf(g);
      this.f, this.text, begin := h, text, 0;
      valid, tok := false, [];
    }

    /**
     Calls the function object on what is left. An exception leaves `valid` as it was and
     the iterator behind the point of failure.
     */
    method CallFunction() returns (status: Status)
      requires Valid()
      modifies this, f.Object()
      ensures Valid() && f == old(f)
      ensures Did(Call(old(f.State()), old(text[begin..])), text, status, begin, tok, f.State())
      ensures valid == match status case Got => true case Finished => false case Threw(_) => old(valid)
      ensures match status
        case Threw(e) => Run(old(f.State()), old(text[begin..])) == Failed([], e)
        case _ => Run(old(f.State()), old(text[begin..])) == Remaining()
    {
      if f.Escaped? {
        status, begin, tok := f.esc.Call(text, begin);
      } else {
        status, begin, tok := f.chr.Call(f.tag, text, begin, tok);
      }
      if !status.Threw? {
        valid := status == Got;
      }
    }

    /** Resets the function object and finds the first token, unless the input is empty. */
    method Initialize() returns (status: Status)
      requires Valid() && !valid
      modifies this, f.Object()
      ensures Valid() && f == old(f)
      ensures var r := if old(begin) == |text| then Done([]) else Run(old(f.State()).Reset(), old(text[begin..]));
        match status
        case Threw(e) => r == Failed([], e) && !valid
        case _ => r == Remaining()
    {
      if f.Escaped? {
        f.esc.Reset();
      } else {
        f.chr.Reset();
      }
      if begin != |text| {
        status := CallFunction();
      } else {
        status := Finished;
        valid := false;
      }
    }

    /**
     Moves on to the next token. If the function object throws, the iterator stays valid, and
     may be advanced again from behind the point of failure.
     */
    method Increment() returns (status: Status)
      requires Valid() && valid
      modifies this, f.Object()
      ensures Valid() && f == old(f)
      ensures match status
        case Threw(e) => old(Remaining()) == Cons(old(tok), Failed([], e)) && valid
        case _ => old(Remaining()) == Cons(old(tok), Remaining())
      ensures status.Threw? ==>
        var o := Call(old(f.State()), old(text[begin..]));
        o.Throw? && text[begin..] == o.rest && tok == o.tok && f.State() == o.sep
      ensures valid && begin <= old(begin) ==> begin == old(begin) && old(f.State().Pending()) && !f.State().Pending()
    {
      status := CallFunction();
    }

    /** The iterator is at the end exactly when no token remains. */
    method AtEnd() returns (b: bool)
      requires Valid()
      ensures b == !valid
      ensures b <==> Remaining() == Done([])
      ensures !b ==> match Remaining() case Done(toks) => toks[0] == tok case Failed(before, _) => before[0] == tok
    {
      b := !valid;
    }
  }

  /** A new iterator, standing on the first token; none at all when finding it throws. */
  method Begin(g: TokenizerFunc, text: string) returns (it: TokenIterator, status: Status)
    ensures fresh(it) && it.Valid() && fresh(it.f.Object()) && it.text == text
    ensures match status
      case Threw(e) => Tokenize(g.State(), text) == Failed([], e)
      case _ => Tokenize(g.State(), text) == it.Remaining()
  {
    it := new TokenIterator(g, text);
    assert text[0..] == text;
    status := it.Initialize();
  }

  /** Tokens already collected in front of those to come. */
  ghost function Prepend(toks: seq<string>, r: Tokens): Tokens {
    match r
    case Done(more) => Done(toks + more)
    case Failed(before, e) => Failed(toks + before, e)
  }

  lemma PrependCons(toks: seq<string>, t: string, r: Tokens)
    ensures Prepend(toks, Cons(t, r)) == Prepend(toks + [t], r)
  {
    match r
    case Done(more) => assert toks + ([t] + more) == (toks + [t]) + more;
    case Failed(before, e) => assert toks + ([t] + before) == (toks + [t]) + before;
  }

  lemma PrependFailed(toks: seq<string>, t: string, e: Error)
    ensures Prepend(toks, Cons(t, Failed([], e))) == Failed(toks + [t], e)
  {
    assert [t] + [] == [t];
  }

  lemma PrependNothing(toks: seq<string>)
    ensures Prepend(toks, Done([])) == Done(toks)
  {
    assert toks + [] == toks;
  }

  /** A whole loop over a tokenizer: it ends, and collects what the run yields. */
  method Collect(g: TokenizerFunc, text: string) returns (r: Tokens)
    ensures r == Tokenize(g.State(), text)
  {
    var it, status := Begin(g, text);
    if status.Threw? {
      return Failed([], status.error);
    }
    var toks: seq<string> := [];
    PrependNone(it.Remaining());
    var atEnd := it.AtEnd();
    ghost var f, all := it.f, Tokenize(g.State(), text);
    while !atEnd
      invariant it.Valid() && it.f == f && fresh(it) && fresh(f.Object()) && it.text == text
      invariant atEnd == !it.valid
      invariant Prepend(toks, it.Remaining()) == all
      decreases !atEnd, |text| - it.begin, f.State().Pending()
    {
      var t := it.tok;
      status := it.Increment();
      if status.Threw? {
        PrependFailed(toks, t, status.error);
        return Failed(toks + [t], status.error);
      }
      PrependCons(toks, t, it.Remaining());
      toks := toks + [t];
      atEnd := it.AtEnd();
    }
    PrependNothing(toks);
    r := Done(toks);
  }

  lemma PrependNone(r: Tokens)
    ensures Prepend([], r) == r
  {
    match r
    case Done(more) => assert [] + more == more;
    case Failed(before, e) => assert [] + before == before;
  }

  /** The assigning and the appending form of `char_separator` yield the same tokens on every input. */
  method BothPaths(d: Delims, text: string) returns (atOnce: Tokens, byChar: Tokens)
    ensures atOnce == byChar == Tokenize(CharSep(d, false), text)
  {
    var c := new CharSeparator(d);
    atOnce := Collect(Chars(c, Rereadable), text);
    byChar := Collect(Chars(c, InputIterator), text);
  }

  /** Fields written between quotes and read back through the iterator. */
  method ReadBack(m: Marks, fields: seq<string>) returns (r: Tokens)
    requires m.e != m.c && m.c != m.q && m.e != m.q && 'n' != m.e && 'n' != m.q
    ensures r == Done(fields)
  {
    var sep := new EscapedListSeparator.Chars(m.e, m.c, m.q);
    var f := EscapedList([m.e], [m.c], [m.q], false);
    r := Collect(Escaped(sep), WriteQuoted(fields, f, m));
    QuotedRoundTrip(f, m);
    assert Tokenize(f, WriteQuoted(fields, f, m)) == Done(fields);
  }
}
