/** `parseCsvRow`: one line of the comma-separated files split into cells, in the style of
    section 2 of RFC 4180 (double-quoted fields, `""` for a quote inside one), without
    fields that span lines. Unbalanced quotes are not an error: the line simply ends in
    whatever mode is active. Cells are not trimmed here.
 */
module CsvRow {
  import opened Quoting

  /** The cells of `line`: the quote convention applied from outside quotes, then grouped
      at each separator. */
  function ParseCsvRow(line: string): (cells: seq<string>)
    ensures |cells| == 1 + UnquotedCommas(line)
    ensures TotalLength(cells) + |cells| - 1 <= |line|
  {
    Split(Lex(line, false))
  }

  /** Number of `,` met while not inside quotes. */
  function UnquotedCommas(line: string): nat {
    SepCount(Lex(line, false))
  }

  /** The loop of the source, character by character, with the quote flag and the cell
      being accumulated. */
  method ParseCsvRowScan(line: string) returns (cells: seq<string>)
    ensures cells == ParseCsvRow(line)
  {
    cells := [];
    var cell: string := [];
    var inQuotes := false;
    var i := 0;
    while i < |line|
      invariant 0 <= i <= |line|
      invariant cells + SplitFrom(Lex(line[i..], inQuotes), cell) == ParseCsvRow(line)
    {
      var c := line[i];
      var rest := line[i..];
      assert rest[1..] == line[i + 1..];
      if c == '"' {
        if inQuotes && i + 1 < |line| && line[i + 1] == '"' {
          assert rest[2..] == line[i + 2..];
          LexEscapedQuote(rest);
          SplitFromLit('"', Lex(line[i + 2..], inQuotes), cell);
          cell := cell + ['"'];
          i := i + 2;
        } else {
          LexToggle(rest, inQuotes);
          inQuotes := !inQuotes;
          i := i + 1;
        }
      } else if c == ',' && !inQuotes {
        LexSep(rest);
        SplitFromSep(Lex(line[i + 1..], false), cell);
        assert cells + ([cell] + SplitFrom(Lex(line[i + 1..], false), []))
            == (cells + [cell]) + SplitFrom(Lex(line[i + 1..], false), []);
        cells := cells + [cell];
        cell := [];
        i := i + 1;
      } else {
        LexLit(rest, inQuotes);
        SplitFromLit(c, Lex(line[i + 1..], inQuotes), cell);
        cell := cell + [c];
        i := i + 1;
      }
    }
    assert line[i..] == [];
    cells := cells + [cell];
  }

  /** The row parser never returns an empty sequence, not even for an empty line. */
  lemma EmptyLineHasOneCell()
    ensures ParseCsvRow("") == [""]
  {
  }

  /** Without doubled quotes in the line, no cell holds a `"`; in general every `"` that
      does reach a cell used up two quote characters of the line. */
  lemma QuotesInCells(line: string)
    ensures 2 * Count('"', Flatten(ParseCsvRow(line))) <= Count('"', line)
    ensures !HasDoubledQuote(line) ==> '"' !in Flatten(ParseCsvRow(line))
  {
    LexDropsOnlyQuotes(line, false);
    assert Flatten(ParseCsvRow(line)) == Chars(Lex(line, false));
    if !HasDoubledQuote(line) {
      LexNoDoubledQuote(line, false);
    }
  }

  /** The only characters of the line that reach no cell and are not separators are
      quote characters: cell lengths, plus one per separator, fall short of the line's
      length by exactly the number of `"` dropped. */
  lemma RowLengthAccount(line: string)
    ensures var cells := ParseCsvRow(line);
            TotalLength(cells) + |cells| - 1
            == |line| - (Count('"', line) - Count('"', Flatten(cells)))
  {
    LexDropsOnlyQuotes(line, false);
    assert Flatten(ParseCsvRow(line)) == Chars(Lex(line, false));
  }

  lemma {:induction false} PlainSplit(s: string, cur: string)
    requires '"' !in s && ',' !in cur
    ensures JoinCommas(SplitFrom(Lex(s, false), cur)) == cur + s
    ensures forall k :: 0 <= k < |SplitFrom(Lex(s, false), cur)| ==> ',' !in SplitFrom(Lex(s, false), cur)[k]
    decreases |s|
  {
    if s == [] {
    } else if s[0] == ',' {
      PlainSplit(s[1..], []);
      var rest := SplitFrom(Lex(s[1..], false), []);
      assert SplitFrom(Lex(s, false), cur) == [cur] + rest;
      assert cur + s == cur + [','] + s[1..];
    } else {
      PlainSplit(s[1..], cur + [s[0]]);
      assert cur + s == cur + [s[0]] + s[1..];
    }
  }

  /** On a line without `"` the parser splits at every comma: joining the cells back with
      commas gives the line, and no cell holds a comma. */
  lemma PlainRowSplitsOnCommas(line: string)
    requires '"' !in line
    ensures JoinCommas(ParseCsvRow(line)) == line
    ensures forall k :: 0 <= k < |ParseCsvRow(line)| ==> ',' !in ParseCsvRow(line)[k]
    ensures |ParseCsvRow(line)| == 1 + Count(',', line)
  {
    PlainSplit(line, []);
    PlainCommaCount(line);
  }

  lemma {:induction false} PlainCommaCount(s: string)
    requires '"' !in s
    ensures SepCount(Lex(s, false)) == Count(',', s)
    decreases |s|
  {
    if s != [] {
      PlainCommaCount(s[1..]);
      var t := Lex(s[1..], false);
      if s[0] == ',' {
        assert ([Sep] + t)[1..] == t;
      } else {
        assert ([Lit(s[0])] + t)[1..] == t;
      }
    }
  }

  /** A field written in RFC 4180 quoted form: wrapped in `"`, each inner `"` doubled. */
  function QuoteField(cell: string): string {
    ['"'] + Escape(cell) + ['"']
  }

  function Escape(cell: string): string {
    if cell == [] then []
    else (if cell[0] == '"' then ['"', '"'] else [cell[0]]) + Escape(cell[1..])
  }

  lemma {:induction false} EscapeAppend(a: string, b: string)
    ensures Escape(a + b) == Escape(a) + Escape(b)
    decreases |a|
  {
    if a == [] {
      assert a + b == b;
    } else {
      EscapeAppend(a[1..], b);
      var h: string := if a[0] == '"' then ['"', '"'] else [a[0]];
      assert (a + b)[0] == a[0];
      assert (a + b)[1..] == a[1..] + b;
      assert Escape(a + b) == h + Escape(a[1..] + b);
      assert h + (Escape(a[1..]) + Escape(b)) == (h + Escape(a[1..])) + Escape(b);
    }
  }
  /** Text without `"` needs no escaping. */
  lemma {:induction false} EscapePlain(cell: string)
    requires '"' !in cell
    ensures Escape(cell) == cell
    decreases |cell|
  {
    if cell != [] {
      EscapePlain(cell[1..]);
      assert cell == [cell[0]] + cell[1..];
    }
  }

  /** A row of quoted fields separated by commas. */
  function QuoteRow(cells: seq<string>): string
    requires |cells| > 0
  {
    if |cells| == 1 then QuoteField(cells[0])
    else QuoteField(cells[0]) + [','] + QuoteRow(cells[1..])
  }

  /** Inside quotes, an escaped cell followed by the closing `"` adds the cell's
      characters to the cell being built, and the scan goes on outside quotes. */
  lemma {:induction false} SplitEscaped(cell: string, rest: string, cur: string)
    requires rest == [] || rest[0] == ','
    ensures SplitFrom(Lex(Escape(cell) + ['"'] + rest, true), cur)
         == SplitFrom(Lex(rest, false), cur + cell)
    decreases |cell|
  {
    if cell == [] {
      SplitEscapedEnd(rest, cur);
      assert cur + cell == cur;
    } else {
      SplitEscaped(cell[1..], rest, cur + [cell[0]]);
      SplitEscapedCons(cell, rest, cur);
    }
  }

  lemma SplitEscapedCons(cell: string, rest: string, cur: string)
    requires cell != []
    requires SplitFrom(Lex(Escape(cell[1..]) + ['"'] + rest, true), cur + [cell[0]])
          == SplitFrom(Lex(rest, false), cur + [cell[0]] + cell[1..])
    ensures SplitFrom(Lex(Escape(cell) + ['"'] + rest, true), cur) == SplitFrom(Lex(rest, false), cur + cell)
  {
    SplitEscapedStep(cell, rest, cur);
    MoveFirst(cur, cell);
  }


  /** The closing `"` ends the quoted part; the scan goes on outside quotes. */
  lemma SplitEscapedEnd(rest: string, cur: string)
    requires rest == [] || rest[0] == ','
    ensures SplitFrom(Lex(Escape([]) + ['"'] + rest, true), cur) == SplitFrom(Lex(rest, false), cur)
  {
    var s := Escape([]) + ['"'] + rest;
    assert s == ['"'] + rest;
    LexToggle(s, true);
    assert s[1..] == rest;
  }

  /** One character of the cell: it is read back whether or not it had to be doubled. */
  lemma SplitEscapedStep(cell: string, rest: string, cur: string)
    requires cell != []
    ensures SplitFrom(Lex(Escape(cell) + ['"'] + rest, true), cur)
         == SplitFrom(Lex(Escape(cell[1..]) + ['"'] + rest, true), cur + [cell[0]])
  {
    var c, cs := cell[0], cell[1..];
    var s, s' := Escape(cell) + ['"'] + rest, Escape(cs) + ['"'] + rest;
    if c == '"' {
      assert s == ['"', '"'] + s';
      LexEscapedQuote(s);
      assert s[2..] == s';
    } else {
      assert s == [c] + s';
      LexLit(s, true);
      assert s[1..] == s';
    }
    SplitFromLit(c, Lex(s', true), cur);
  }

  /** A quoted field adds its cell's characters to the cell being built, whatever commas
      or quotes they hold, when a comma or the end of the line follows it. */
  lemma SplitQuoteField(cell: string, rest: string, cur: string)
    requires rest == [] || rest[0] == ','
    ensures SplitFrom(Lex(QuoteField(cell) + rest, false), cur)
         == SplitFrom(Lex(rest, false), cur + cell)
  {
    var s := QuoteField(cell) + rest;
    assert s == ['"'] + (Escape(cell) + ['"'] + rest);
    assert s[1..] == Escape(cell) + ['"'] + rest;
    LexToggle(s, false);
    SplitEscaped(cell, rest, cur);
  }

  /** A quoted field followed by a comma is read back as that one cell, and parsing
      resumes on the rest of the line outside quotes. */
  lemma QuotedFieldThenRest(cell: string, rest: string)
    ensures ParseCsvRow(QuoteField(cell) + [','] + rest) == [cell] + ParseCsvRow(rest)
  {
    var r := [','] + rest;
    assert QuoteField(cell) + [','] + rest == QuoteField(cell) + r;
    SplitQuoteField(cell, r, []);
    assert r[1..] == rest;
    LexSep(r);
    SplitFromSep(Lex(rest, false), [] + cell);
    assert [] + cell == cell;
  }

  /** A lone quoted field is read back as that one cell. */
  lemma QuotedFieldAlone(cell: string)
    ensures ParseCsvRow(QuoteField(cell)) == [cell]
  {
    SplitQuoteField(cell, [], []);
    assert QuoteField(cell) + [] == QuoteField(cell);
    assert [] + cell == cell;
  }

  /** Round trip: any non-empty row of cells, written in quoted form on one line, is
      parsed back into exactly those cells, whatever commas or quotes they hold. */
  lemma {:induction false} QuotedRowRoundTrip(cells: seq<string>)
    requires |cells| > 0
    ensures ParseCsvRow(QuoteRow(cells)) == cells
    decreases |cells|
  {
    if |cells| == 1 {
      QuotedFieldAlone(cells[0]);
    } else {
      QuotedRowRoundTrip(cells[1..]);
      QuotedFieldThenRest(cells[0], QuoteRow(cells[1..]));
      assert cells == [cells[0]] + cells[1..];
    }
  }

  /** A quoted field without `"` inside is the text between two quote characters. */
  lemma QuoteFieldPlain(c: string)
    requires '"' !in c
    ensures QuoteField(c) == ['"'] + c + ['"']
  {
    EscapePlain(c);
  }

  lemma MoveFirst(cur: string, cell: string)
    requires cell != []
    ensures cur + [cell[0]] + cell[1..] == cur + cell
  {
    assert cell == [cell[0]] + cell[1..];
  }

  lemma AppendTail(p: string, r: string)
    requires p != []
    ensures (p + r)[0] == p[0] && (p + r)[1..] == p[1..] + r
  {
  }

  /** Outside quotes, text without `"` or `,` is copied into the cell being built. */
  lemma {:induction false} SplitPlain(p: string, r: string, cur: string)
    requires '"' !in p && ',' !in p
    ensures SplitFrom(Lex(p + r, false), cur) == SplitFrom(Lex(r, false), cur + p)
    decreases |p|
  {
    if p == [] {
      assert p + r == r;
      assert cur + p == cur;
    } else {
      SplitPlain(p[1..], r, cur + [p[0]]);
      SplitPlainCons(p, r, cur);
    }
  }

  lemma SplitPlainCons(p: string, r: string, cur: string)
    requires p != [] && p[0] != '"' && p[0] != ','
    requires SplitFrom(Lex(p[1..] + r, false), cur + [p[0]])
          == SplitFrom(Lex(r, false), cur + [p[0]] + p[1..])
    ensures SplitFrom(Lex(p + r, false), cur) == SplitFrom(Lex(r, false), cur + p)
  {
    AppendTail(p, r);
    LexLit(p + r, false);
    SplitFromLit(p[0], Lex(p[1..] + r, false), cur);
    MoveFirst(cur, p);
  }

  /** A cell without `"` or `,` followed by a comma is read back as that one cell, and
      parsing resumes on the rest of the line. */
  lemma PlainFieldThenRest(p: string, rest: string)
    requires '"' !in p && ',' !in p
    ensures ParseCsvRow(p + [','] + rest) == [p] + ParseCsvRow(rest)
  {
    var r := [','] + rest;
    assert p + [','] + rest == p + r;
    SplitPlain(p, r, []);
    assert r[1..] == rest;
    LexSep(r);
    SplitFromSep(Lex(rest, false), [] + p);
    assert [] + p == p;
  }

  /** A line without `"` or `,` is one cell. */
  lemma PlainCell(p: string)
    requires '"' !in p && ',' !in p
    ensures ParseCsvRow(p) == [p]
  {
    PlainRowSplitsOnCommas(p);
  }

  /** A plain cell, a quoted cell holding commas, and a plain cell:
      `a,"b",d` gives `a`, `b` and `d` for any `b` without `"`. */
  lemma QuotedCommaRow(a: string, b: string, d: string)
    requires '"' !in a && ',' !in a && '"' !in d && ',' !in d && '"' !in b
    ensures ParseCsvRow(a + ",\"" + b + "\"," + d) == [a, b, d]
  {
    QuoteFieldPlain(b);
    var rest := QuoteField(b) + [','] + d;
    QuotedCommaLine(a, b, d);
    PlainFieldThenRest(a, rest);
    QuotedFieldThenRest(b, d);
    PlainCell(d);
  }

  // String concatenation checked on its own, so that the parsing proof using it never sees it.
  lemma QuotedCommaLine(a: string, b: string, d: string)
    ensures a + ",\"" + b + "\"," + d == a + [','] + ((['"'] + b + ['"']) + [','] + d)
  {
  }

  /** `a,"b,c",d` gives `a`, `b,c` and `d`. */
  lemma ExampleQuotedComma()
    ensures ParseCsvRow("a,\"b,c\",d") == ["a", "b,c", "d"]
  {
    QuotedCommaRow("a", "b,c", "d");
    ExampleQuotedCommaLine();
  }

  // String concatenation checked on its own, so that the parsing proof using it never sees it.
  lemma ExampleQuotedCommaLine()
    ensures "a" + ",\"" + "b,c" + "\"," + "d" == "a,\"b,c\",d"
  {
  }

  /** A quoted field holding one quoted word: `"p""q""",x` gives `p"q"` and `x`, for any
      `p` and `q` without quotes. */
  lemma QuotedWordRow(p: string, q: string)
    requires '"' !in p && '"' !in q
    ensures ParseCsvRow("\"" + p + "\"\"" + q + "\"\"\",x") == [p + "\"" + q + "\"", "x"]
  {
    var cell := p + "\"" + q + "\"";
    QuotedWordField(p, q);
    assert QuoteField(cell) + [','] + "x" == "\"" + p + "\"\"" + q + "\"\"\",x";
    QuotedFieldThenRest(cell, "x");
    PlainCell("x");
  }

  lemma QuotedWordField(p: string, q: string)
    requires '"' !in p && '"' !in q
    ensures QuoteField(p + "\"" + q + "\"") == "\"" + p + "\"\"" + q + "\"\"\""
  {
    var e := Escape(p + "\"" + q + "\"");
    EscapeWord(p, q);
    assert ['"'] + e + ['"'] == "\"" + p + "\"\"" + q + "\"\"\"";
  }

  lemma EscapeWord(p: string, q: string)
    requires '"' !in p && '"' !in q
    ensures Escape(p + "\"" + q + "\"") == p + "\"\"" + q + "\"\""
  {
    var d, dd := "\"", "\"\"";
    assert Escape(d) == dd;
    EscapeAppend(p + d + q, d);
    EscapeAppend(p + d, q);
    EscapeAppend(p, d);
    EscapePlain(p);
    EscapePlain(q);
  }

  /** `"He said ""hi""",x` gives `He said "hi"` and `x`. */
  lemma ExampleEscapedQuote()
    ensures ParseCsvRow("\"He said \"\"hi\"\"\",x") == ["He said \"hi\"", "x"]
  {
    QuotedWordRow("He said ", "hi");
    ExampleEscapedQuoteLine();
    ExampleEscapedQuoteCell();
  }

  // String concatenation checked on its own, so that the parsing proof using it never sees it.
  lemma ExampleEscapedQuoteLine()
    ensures "\"" + "He said " + "\"\"" + "hi" + "\"\"\",x" == "\"He said \"\"hi\"\"\",x"
  {
  }

  // String concatenation checked on its own, so that the parsing proof using it never sees it.
  lemma ExampleEscapedQuoteCell()
    ensures "He said " + "\"" + "hi" + "\"" == "He said \"hi\""
  {
  }
}
