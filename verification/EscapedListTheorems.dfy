/** Writing a list of fields and reading it back through `escaped_list_separator`. */
module EscapedListTheorems {
  import opened TokenSpec

  /** The characters a writer uses; each must play its part for the given separator. */
  datatype Marks = Marks(e: char, c: char, q: char) {
    predicate Fit(f: Separator) {
      && f.EscapedList?
      && e in f.escape
      && c in f.c && c !in f.escape
      && q in f.quote && q !in f.escape && q !in f.c
    }
  }

  /** Every character of `special` gets an escape in front. */
  function EscapeAll(field: string, special: string, e: char): string {
    if field == [] then []
    else (if field[0] in special then [e, field[0]] else [field[0]]) + EscapeAll(field[1..], special, e)
  }

  /** In quotes only escapes and quotes are special; outside, separators are too. */
  function QuotedSpecials(f: Separator): string
    requires f.EscapedList?
  {
    f.escape + f.quote
  }

  function BareSpecials(f: Separator): string
    requires f.EscapedList?
  {
    f.escape + f.quote + f.c
  }

  /** One field as written, between quotes or not. */
  function Written(field: string, quoted: bool, special: string, m: Marks): (s: string)
    ensures quoted ==> s != []
  {
    var body := EscapeAll(field, special, m.e);
    if quoted then [m.q] + (body + [m.q]) else body
  }

  function Join(fields: seq<string>, quoted: bool, special: string, m: Marks): string {
    if fields == [] then []
    else if |fields| == 1 then Written(fields[0], quoted, special, m)
    else Written(fields[0], quoted, special, m) + ([m.c] + Join(fields[1..], quoted, special, m))
  }

  function WriteQuoted(fields: seq<string>, f: Separator, m: Marks): string
    requires f.EscapedList?
  {
    Join(fields, true, QuotedSpecials(f), m)
  }

  function WriteBare(fields: seq<string>, f: Separator, m: Marks): string
    requires f.EscapedList?
  {
    Join(fields, false, BareSpecials(f), m)
  }

  // ----- One field -----

  /** The characters that need an escape get one; no escape sequence means another character. */
  ghost predicate Covers(f: Separator, special: string, quoted: bool)
    requires f.EscapedList?
  {
    && 'n' !in special
    && (forall x :: x in f.escape || x in f.quote ==> x in special)
    && (forall x :: x in special ==> x in f.escape || x in f.quote || x in f.c)
    && (!quoted ==> forall x :: x in f.c ==> x in special)
  }

  lemma ScanPair(f: Separator, m: Marks, x: char, inQuote: bool, rest: string, tok: string)
    requires m.Fit(f) && x != 'n' && (x in f.escape || x in f.quote || x in f.c)
    ensures Scan(f, [m.e, x] + rest, inQuote, tok) == Scan(f, rest, inQuote, tok + [x])
  {
    assert ([m.e, x] + rest)[2..] == rest;
  }

  lemma ScanSingle(f: Separator, x: char, inQuote: bool, rest: string, tok: string)
    requires f.EscapedList? && x !in f.escape && x !in f.quote && (inQuote || x !in f.c)
    ensures Scan(f, [x] + rest, inQuote, tok) == Scan(f, rest, inQuote, tok + [x])
  {
    assert ([x] + rest)[1..] == rest;
  }

  lemma ScanQuote(f: Separator, m: Marks, inQuote: bool, rest: string, tok: string)
    requires m.Fit(f)
    ensures Scan(f, [m.q] + rest, inQuote, tok) == Scan(f, rest, !inQuote, tok)
  {
    assert ([m.q] + rest)[1..] == rest;
  }

  lemma ScanSeparator(f: Separator, m: Marks, rest: string, tok: string)
    requires m.Fit(f)
    ensures Scan(f, [m.c] + rest, false, tok) == Token(rest, tok, f.(last := true))
  {
    assert ([m.c] + rest)[1..] == rest;
  }

  lemma Regroup(a: string, b: string, c: string)
    ensures (a + b) + c == a + (b + c)
  {
  }

  /** Escaped text is read as the text; in quotes, separators may stand as they are. */
  lemma {:induction false} ScanEscaped(f: Separator, m: Marks, field: string, special: string, inQuote: bool,
                                       rest: string, tok: string)
    requires m.Fit(f) && Covers(f, special, inQuote)
    ensures Scan(f, EscapeAll(field, special, m.e) + rest, inQuote, tok) == Scan(f, rest, inQuote, tok + field)
    decreases field
  {
    if field == [] {
      assert EscapeAll(field, special, m.e) + rest == rest && tok + field == tok;
    } else {
      var x, tail := field[0], EscapeAll(field[1..], special, m.e);
      ScanEscaped(f, m, field[1..], special, inQuote, rest, tok + [x]);
      assert (tok + [x]) + field[1..] == tok + field;
      if x in special {
        Regroup([m.e, x], tail, rest);
        ScanPair(f, m, x, inQuote, tail + rest, tok);
      } else {
        Regroup([x], tail, rest);
        ScanSingle(f, x, inQuote, tail + rest, tok);
      }
    }
  }

  /** A written field, up to the separator or the end behind it. */
  lemma ScanWritten(f: Separator, m: Marks, field: string, quoted: bool, special: string, rest: string)
    requires m.Fit(f) && Covers(f, special, quoted)
    ensures Scan(f, Written(field, quoted, special, m) + rest, false, []) == Scan(f, rest, false, field)
  {
    var body := EscapeAll(field, special, m.e);
    assert [] + field == field;
    if quoted {
      Regroup([m.q], body + [m.q], rest);
      Regroup(body, [m.q], rest);
      ScanQuote(f, m, false, body + ([m.q] + rest), []);
      ScanEscaped(f, m, field, special, true, [m.q] + rest, []);
      ScanQuote(f, m, true, rest, field);
    } else {
      ScanEscaped(f, m, field, special, false, rest, []);
    }
  }

  // ----- Whole lists -----

  /** All the fields come back, provided there is something to read or one more field is due. */
  lemma {:induction false} RunWritten(f: Separator, m: Marks, fields: seq<string>, quoted: bool, special: string)
    requires m.Fit(f) && Covers(f, special, quoted) && fields != []
    requires f.last || Join(fields, quoted, special, m) != []
    ensures Run(f, Join(fields, quoted, special, m)) == Done(fields)
    decreases |fields|
  {
    if |fields| == 1 {
      RunLast(f, m, fields[0], quoted, special);
      assert fields == [fields[0]];
    } else {
      var f' := f.(last := true);
      var rest := Join(fields[1..], quoted, special, m);
      assert f'.last && m.Fit(f') && Covers(f', special, quoted);
      RunFirst(f, m, fields[0], quoted, special, rest);
      RunWritten(f', m, fields[1..], quoted, special);
      HeadTail(fields);
    }
  }

  lemma HeadTail(fields: seq<string>)
    requires fields != []
    ensures fields == [fields[0]] + fields[1..]
  {
  }

  lemma RunLast(f: Separator, m: Marks, field: string, quoted: bool, special: string)
    requires m.Fit(f) && Covers(f, special, quoted)
    requires f.last || Written(field, quoted, special, m) != []
    ensures Run(f, Written(field, quoted, special, m)) == Done([field])
  {
    var s, f' := Written(field, quoted, special, m), f.(last := false);
    ScanWritten(f, m, field, quoted, special, []);
    assert s + [] == s;
    EmptyField(field, quoted, special, m);
    assert Run(f', []) == Done([]);
    assert Run(f, s) == Cons(field, Run(f', []));
    assert [field] + [] == [field];
  }

  lemma EmptyField(field: string, quoted: bool, special: string, m: Marks)
    ensures Written(field, quoted, special, m) == [] <==> !quoted && field == []
  {
  }

  lemma RunFirst(f: Separator, m: Marks, field: string, quoted: bool, special: string, rest: string)
    requires m.Fit(f) && Covers(f, special, quoted)
    ensures var s := Written(field, quoted, special, m) + ([m.c] + rest);
      Run(f, s) == Cons(field, Run(f.(last := true), rest))
  {
    var s := Written(field, quoted, special, m) + ([m.c] + rest);
    assert s != [];
    ScanWritten(f, m, field, quoted, special, [m.c] + rest);
    ScanSeparator(f, m, rest, field);
  }

  lemma Fits(f: Separator, m: Marks)
    requires m.Fit(f)
    ensures 'n' !in QuotedSpecials(f) ==> Covers(f, QuotedSpecials(f), true)
    ensures 'n' !in BareSpecials(f) ==> Covers(f, BareSpecials(f), false)
  {
  }

  /** An escaped n is read as a line feed: such a field does not come back. */
  lemma EscapedNewline(f: Separator, m: Marks, quoted: bool, special: string)
    requires m.Fit(f) && 'n' in special
    ensures Tokenize(f, Join(["n"], quoted, special, m)) != Done(["n"])
  {
    var g := f.(last := false);
    var s := Join(["n"], quoted, special, m);
    assert "n"[1..] == [];
    assert EscapeAll("n", special, m.e) == [m.e, 'n'];
    if quoted {
      ScanQuote(g, m, false, [m.e, 'n'] + [m.q], []);
      ScanLineFeed(g, m, true, [m.q], []);
      assert [m.q] + [] == [m.q];
      ScanQuote(g, m, true, [], [] + ['\n']);
    } else {
      assert [m.e, 'n'] + [] == [m.e, 'n'];
      ScanLineFeed(g, m, false, [], []);
    }
    assert Scan(g, s, false, []) == Token([], [] + ['\n'], g);
    assert Run(g, s) == Cons([] + ['\n'], Run(g, []));
    assert [['\n']][0] != "n";
  }

  lemma ScanLineFeed(f: Separator, m: Marks, inQuote: bool, rest: string, tok: string)
    requires m.Fit(f)
    ensures Scan(f, [m.e, 'n'] + rest, inQuote, tok) == Scan(f, rest, inQuote, tok + ['\n'])
  {
    assert ([m.e, 'n'] + rest)[2..] == rest;
  }

  /**
   Every list of fields written between quotes is read back exactly, if and only if 'n'
   is neither an escape nor a quote character.
   */
  lemma QuotedRoundTrip(f: Separator, m: Marks)
    requires m.Fit(f)
    ensures (forall fields :: Tokenize(f, WriteQuoted(fields, f, m)) == Done(fields)) <==> 'n' !in f.escape + f.quote
  {
    if 'n' !in f.escape + f.quote {
      Fits(f, m);
      forall fields ensures Tokenize(f, WriteQuoted(fields, f, m)) == Done(fields) {
        if fields != [] {
          RunWritten(f.Reset(), m, fields, true, QuotedSpecials(f));
        }
      }
    } else {
      EscapedNewline(f, m, true, QuotedSpecials(f));
      assert Tokenize(f, WriteQuoted(["n"], f, m)) != Done(["n"]);
    }
  }

  /** Without quotes the one list that is lost is that of a single empty field. */
  lemma BareRoundTrip(f: Separator, m: Marks, fields: seq<string>)
    requires m.Fit(f) && 'n' !in f.escape + f.quote + f.c
    ensures Tokenize(f, WriteBare(fields, f, m)) == Done(fields) <==> fields != [[]]
  {
    Fits(f, m);
    EmptyJoin(fields, BareSpecials(f), m);
    if fields != [] && fields != [[]] {
      RunWritten(f.Reset(), m, fields, false, BareSpecials(f));
    }
  }

  lemma EmptyJoin(fields: seq<string>, special: string, m: Marks)
    ensures Join(fields, false, special, m) == [] <==> fields == [] || fields == [[]]
  {
    if |fields| == 1 {
      EmptyField(fields[0], false, special, m);
      assert fields == [fields[0]];
    }
  }

  /** And 'n' must not need an escape there either. */
  lemma BareNeedsN(f: Separator, m: Marks)
    requires m.Fit(f)
    ensures (forall fields :: fields != [[]] ==> Tokenize(f, WriteBare(fields, f, m)) == Done(fields))
       <==> 'n' !in f.escape + f.quote + f.c
  {
    if 'n' !in f.escape + f.quote + f.c {
      forall fields | fields != [[]] ensures Tokenize(f, WriteBare(fields, f, m)) == Done(fields) {
        BareRoundTrip(f, m, fields);
      }
    } else {
      EscapedNewline(f, m, false, BareSpecials(f));
      assert ["n"] != [[]];
      assert Tokenize(f, WriteBare(["n"], f, m)) != Done(["n"]);
    }
  }
}
