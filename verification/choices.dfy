/** `parseChoicesArray`: the choices cell of the question file, a bracketed list of quoted
    strings such as `["opt1", "opt2, with comma", "opt3"]`, turned into its options.

    The cell is trimmed; one outer `[` … `]` pair is removed when both are present; the
    body is then cut at commas outside quotes with the same quote convention as the row
    parser. Every piece is trimmed, except that the final piece is dropped altogether when
    it is empty BEFORE trimming — so a trailing comma adds no option, while a final piece
    of only spaces adds an empty one. Last, one pair of wrapping `"` is removed from each
    option that still has one.
 */
module Choices {
  import opened Text
  import opened Quoting
  import opened CsvRow

  predicate IsBracketed(s: string) {
    |s| > 0 && s[0] == '[' && s[|s| - 1] == ']'
  }

  /** One outer bracket pair removed, only when the text both starts with `[` and ends
      with `]`; otherwise the text is kept whole. */
  function StripBrackets(s: string): (b: string)
    ensures IsBracketed(s) ==> s == ['['] + b + [']']
    ensures !IsBracketed(s) ==> b == s
  {
    if IsBracketed(s) then s[1..|s| - 1] else s
  }

  /** The text the scan runs over: the trimmed cell with one bracket pair removed. */
  function Body(raw: string): string {
    StripBrackets(Trim(raw))
  }

  /** One pair of wrapping `"` removed from a trimmed option. A lone `"` becomes empty,
      as `substr(1, npos)` on a one-character string does. */
  function StripWrappingQuotes(t: string): (e: string)
    ensures |t| >= 2 && t[0] == '"' && t[|t| - 1] == '"' ==> t == ['"'] + e + ['"']
    ensures t == "\"" ==> e == []
    ensures !(|t| > 0 && t[0] == '"' && t[|t| - 1] == '"') ==> e == t
  {
    if |t| > 0 && t[0] == '"' && t[|t| - 1] == '"' then
      (if |t| >= 2 then t[1..|t| - 1] else [])
    else t
  }

  /** The final piece of a row, the one no comma closes. */
  function Last(pieces: seq<string>): string
    requires |pieces| > 0
  {
    pieces[|pieces| - 1]
  }

  /** The pieces the scan pushes: every piece closed by a comma, and the final one only
      when it is not empty. */
  function Kept(pieces: seq<string>): (kept: seq<string>)
    requires |pieces| > 0
    ensures |kept| == |pieces| - (if Last(pieces) == [] then 1 else 0)
    ensures kept == pieces[..|kept|]
  {
    var last := Last(pieces);
    pieces[..|pieces| - 1] + (if last != [] then [last] else [])
  }

  /** What becomes of a pushed piece: trimmed when pushed, trimmed again, then unwrapped. */
  function Finish(piece: string): (e: string)
    ensures e == StripWrappingQuotes(Trim(piece))
  {
    TrimIdempotent(piece);
    StripWrappingQuotes(Trim(Trim(piece)))
  }

  function ParseChoicesArray(raw: string): (out: seq<string>)
    ensures AllSpace(raw) ==> out == []
    ensures !AllSpace(raw) ==>
              var pieces := ParseCsvRow(Body(raw));
              && |out| == |pieces| - (if Last(pieces) == [] then 1 else 0)
              && forall k :: 0 <= k < |out| ==> out[k] == StripWrappingQuotes(Trim(pieces[k]))
  {
    var s := Trim(raw);
    if s == [] then []
    else
      var kept := Kept(ParseCsvRow(StripBrackets(s)));
      seq(|kept|, k requires 0 <= k < |kept| => Finish(kept[k]))
  }

  /** Options counted: one per comma outside quotes in the body, plus one when the final
      piece, before trimming, is not empty. */
  lemma ChoicesCount(raw: string)
    requires !AllSpace(raw)
    ensures |ParseChoicesArray(raw)|
         == UnquotedCommas(Body(raw)) + (if Last(ParseCsvRow(Body(raw))) != [] then 1 else 0)
  {
  }

  /** The empty cell, a cell of only white space, and `[]` all give no options. */
  lemma EmptyChoices(raw: string)
    requires AllSpace(raw) || Trim(raw) == "[]"
    ensures ParseChoicesArray(raw) == []
  {
    if !AllSpace(raw) {
      assert Body(raw) == [];
      assert ParseCsvRow([]) == [[]];
    }
  }

  /** A final piece of only white space is kept, and becomes an empty option: `[ ]` gives
      one empty option, unlike `[]`. */
  lemma BlankFinalPiece()
    ensures ParseChoicesArray("[ ]") == [""]
  {
    assert Trim("[ ]") == "[ ]" by {
      TrimUnique("[ ]", 0, 3);
      assert "[ ]"[0..3] == "[ ]";
    }
    assert Body("[ ]") == " ";
    assert Lex(" ", false) == [Lit(' ')];
    assert ParseCsvRow(" ") == [" "] by {
      SplitFromLit(' ', [], "");
      assert [Lit(' ')] + [] == [Lit(' ')];
      assert "" + [' '] == " ";
    }
    assert Trim(" ") == "";
  }
}

/** Lists written in double-quoted form, `["a", "b, c", "d"]`, read back by the choices
    parser. */
module ChoiceLists {
  import opened Text
  import opened Quoting
  import opened CsvRow
  import opened Choices

  /** The body of a list: each option quoted, neighbours separated by a comma and a space. */
  function ListBody(opts: seq<string>): string
    requires |opts| > 0
    decreases |opts|
  {
    if |opts| == 1 then QuoteField(opts[0])
    else QuoteField(opts[0]) + [',', ' '] + ListBody(opts[1..])
  }

  function ListCell(opts: seq<string>): string
    requires |opts| > 0
  {
    ['['] + ListBody(opts) + [']']
  }

  /** The pieces the scan cuts a list body into: the first option after `cur`, then every
      later option after the space that followed its comma. */
  function Pieces(cur: string, opts: seq<string>): (ps: seq<string>)
    requires |opts| > 0
    ensures |ps| == |opts|
    decreases |opts|
  {
    [cur + opts[0]] + (if |opts| == 1 then [] else Pieces(" ", opts[1..]))
  }

  lemma {:induction false} SplitListBody(opts: seq<string>, cur: string)
    requires |opts| > 0
    ensures SplitFrom(Lex(ListBody(opts), false), cur) == Pieces(cur, opts)
    decreases |opts|
  {
    if |opts| == 1 {
      SplitQuoteField(opts[0], [], cur);
      assert QuoteField(opts[0]) + [] == QuoteField(opts[0]);
    } else {
      var y := ListBody(opts[1..]);
      var rest := [',', ' '] + y;
      assert ListBody(opts) == QuoteField(opts[0]) + rest;
      SplitQuoteField(opts[0], rest, cur);
      LexSep(rest);
      assert rest[1..] == [' '] + y;
      assert ([' '] + y)[1..] == y;
      LexLit([' '] + y, false);
      SplitFromSep([Lit(' ')] + Lex(y, false), cur + opts[0]);
      SplitFromLit(' ', Lex(y, false), []);
      assert [] + [' '] == " ";
      SplitListBody(opts[1..], " ");
    }
  }

  /** An option that the parser gives back unchanged: no white space at either end, and
      not itself wrapped in `"`. */
  predicate Clean(o: string) {
    && (|o| > 0 ==> !IsSpace(o[0]) && !IsSpace(o[|o| - 1]))
    && !(|o| > 0 && o[0] == '"' && o[|o| - 1] == '"')
  }

  lemma TrimClean(o: string, pad: string)
    requires Clean(o)
    requires pad == [] || pad == " "
    ensures Trim(pad + o) == o
  {
    if o == [] {
      TrimBlankPad(o, pad);
    } else {
      TrimCleanSlice(o, pad);
    }
  }

  lemma TrimBlankPad(o: string, pad: string)
    requires o == []
    requires pad == [] || pad == " "
    ensures Trim(pad + o) == o
  {
    assert pad + o == pad;
    assert AllSpace(pad);
  }

  lemma TrimCleanSlice(o: string, pad: string)
    requires |o| > 0 && !IsSpace(o[0]) && !IsSpace(o[|o| - 1])
    requires pad == [] || pad == " "
    ensures Trim(pad + o) == o
  {
    var s := pad + o;
    assert s[|pad|..|pad| + |o|] == o;
    TrimUnique(s, |pad|, |pad| + |o|);
  }

  /** Round trip: a list of clean options written as `["o1", "o2", ...]` (inner `"`
      doubled) is parsed back into exactly those options, except that a list whose only
      option is empty, `[""]`, comes back empty. */
  lemma ListRoundTrip(opts: seq<string>)
    requires |opts| > 0
    requires forall k :: 0 <= k < |opts| ==> Clean(opts[k])
    requires |opts| > 1 || opts[0] != []
    ensures ParseChoicesArray(ListCell(opts)) == opts
  {
    var cell, pieces := ListCell(opts), Pieces([], opts);
    ListCellBody(opts);
    ListPieces(opts);
    PiecesFinish(opts);
    ChoicesFromPieces(cell, pieces, opts);
  }

  /** The row parser cuts a list body into its pieces. */
  lemma ListPieces(opts: seq<string>)
    requires |opts| > 0
    ensures ParseCsvRow(ListBody(opts)) == Pieces([], opts)
  {
    SplitListBody(opts, []);
  }

  lemma PiecesFinish(opts: seq<string>)
    requires |opts| > 0
    requires forall k :: 0 <= k < |opts| ==> Clean(opts[k])
    requires |opts| > 1 || opts[0] != []
    ensures Last(Pieces([], opts)) != []
    ensures forall k :: 0 <= k < |opts| ==> StripWrappingQuotes(Trim(Pieces([], opts)[k])) == opts[k]
  {
    var pieces := Pieces([], opts);
    PiecesShape(opts, []);
    assert pieces[0] == opts[0] by {
      assert [] + opts[0] == opts[0];
    }
    forall k | 0 <= k < |opts| ensures StripWrappingQuotes(Trim(pieces[k])) == opts[k] {
      PieceFinishes(pieces[k], opts[k], k == 0);
    }
  }

  /** A piece is its option, behind nothing (the first) or behind one space (the others). */
  lemma PieceFinishes(piece: string, o: string, first: bool)
    requires Clean(o)
    requires piece == (if first then [] else " ") + o
    ensures StripWrappingQuotes(Trim(piece)) == o
  {
    TrimClean(o, if first then [] else " ");
  }

  /** When every piece of the body is non-empty at the end and finishes as the wanted
      option, the parser returns exactly those options. */
  lemma ChoicesFromPieces(raw: string, pieces: seq<string>, opts: seq<string>)
    requires !AllSpace(raw) && pieces == ParseCsvRow(Body(raw))
    requires |pieces| == |opts| && Last(pieces) != []
    requires forall k :: 0 <= k < |opts| ==> StripWrappingQuotes(Trim(pieces[k])) == opts[k]
    ensures ParseChoicesArray(raw) == opts
  {
    var out := ParseChoicesArray(raw);
    assert |out| == |opts|;
    forall k | 0 <= k < |opts| ensures out[k] == opts[k] {
    }
  }

  /** The cell is already trimmed, and its brackets are the pair that gets removed. */
  lemma ListCellBody(opts: seq<string>)
    requires |opts| > 0
    ensures !AllSpace(ListCell(opts))
    ensures Body(ListCell(opts)) == ListBody(opts)
  {
    var cell := ListCell(opts);
    assert cell[0..|cell|] == cell;
    TrimUnique(cell, 0, |cell|);
    assert !IsSpace(cell[0]);
  }

  /** Piece `k` is option `k` behind `cur` (first piece) or a single space (the others). */
  lemma {:induction false} PiecesShape(opts: seq<string>, cur: string)
    requires |opts| > 0
    ensures forall k :: 0 < k < |opts| ==> Pieces(cur, opts)[k] == " " + opts[k]
    ensures Pieces(cur, opts)[0] == cur + opts[0]
    ensures |opts| > 1 ==> Last(Pieces(cur, opts)) != []
    decreases |opts|
  {
    if |opts| > 1 {
      PiecesShape(opts[1..], " ");
    }
  }

  /** Three options without `"` inside, written as a list, give the expected text. */
  lemma ThreeOptionsText(a: string, b: string, c: string)
    requires '"' !in a && '"' !in b && '"' !in c
    ensures ListCell([a, b, c]) == "[\"" + a + "\", \"" + b + "\", \"" + c + "\"]"
  {
    var opts := [a, b, c];
    assert opts[1..] == [b, c] && opts[1..][1..] == [c];
    QuoteFieldPlain(a);
    QuoteFieldPlain(b);
    QuoteFieldPlain(c);
    var qa, qb, qc := ['"'] + a + ['"'], ['"'] + b + ['"'], ['"'] + c + ['"'];
    assert ListBody(opts[1..]) == qb + [',', ' '] + qc;
    assert ListBody(opts) == qa + [',', ' '] + (qb + [',', ' '] + qc);
    ThreeOptionsJoin(a, b, c);
  }

  // String concatenation checked on its own, so that the parsing proof using it never sees it.
  lemma ThreeOptionsJoin(a: string, b: string, c: string)
    ensures var qa, qb, qc := ['"'] + a + ['"'], ['"'] + b + ['"'], ['"'] + c + ['"'];
            ['['] + (qa + [',', ' '] + (qb + [',', ' '] + qc)) + [']']
              == "[\"" + a + "\", \"" + b + "\", \"" + c + "\"]"
  {
  }

  /** Three clean options without `"` inside, written as a list, come back as they were. */
  lemma ThreeOptions(a: string, b: string, c: string)
    requires Clean(a) && Clean(b) && Clean(c)
    requires '"' !in a && '"' !in b && '"' !in c
    ensures ParseChoicesArray("[\"" + a + "\", \"" + b + "\", \"" + c + "\"]") == [a, b, c]
  {
    ThreeOptionsText(a, b, c);
    ListRoundTrip([a, b, c]);
  }

  /** `["opt1", "opt2, with comma", "opt3"]` gives `opt1`, `opt2, with comma` and `opt3`. */
  lemma ExampleChoices()
    ensures ParseChoicesArray("[\"opt1\", \"opt2, with comma\", \"opt3\"]")
         == ["opt1", "opt2, with comma", "opt3"]
  {
    ThreeOptions("opt1", "opt2, with comma", "opt3");
    ExampleListText();
  }

  // String concatenation checked on its own, so that the parsing proof using it never sees it.
  lemma ExampleListText()
    ensures "[\"" + "opt1" + "\", \"" + "opt2, with comma" + "\", \"" + "opt3" + "\"]"
         == "[\"opt1\", \"opt2, with comma\", \"opt3\"]"
  {
  }
}
