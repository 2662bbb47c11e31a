/** The double-quote convention shared by the row parser and the choices parser.

    Both parsers walk their text once, left to right, with an "inside quotes" flag:
    a `"` flips the flag, except that `""` met while inside quotes stands for one
    literal `"`; a `,` met outside quotes ends the current piece; every other
    character (including a `,` inside quotes) is copied. This module states that
    convention once, as a lexer from characters to tokens, and a grouping of the
    tokens into pieces.
 */
module Quoting {

  /** What one step of the scan contributes: a separator, or one copied character. */
  datatype Token = Sep | Lit(c: char)

  /** Number of occurrences of `c` in `s`. */
  function Count(c: char, s: string): (n: nat)
    ensures n <= |s|
    ensures n == 0 <==> c !in s
  {
    if s == [] then 0 else (if s[0] == c then 1 else 0) + Count(c, s[1..])
  }

  lemma CountAppend(c: char, a: string, b: string)
    ensures Count(c, a + b) == Count(c, a) + Count(c, b)
  {
    if a == [] {
      assert a + b == b;
    } else {
      assert (a + b)[0] == a[0];
      assert (a + b)[1..] == a[1..] + b;
      CountAppend(c, a[1..], b);
    }
  }

  /** The characters the tokens copy, in order. */
  function Chars(t: seq<Token>): string {
    if t == [] then [] else (if t[0].Lit? then [t[0].c] else []) + Chars(t[1..])
  }

  /** Number of separators among the tokens. */
  function SepCount(t: seq<Token>): (n: nat)
    ensures n <= |t|
  {
    if t == [] then 0 else (if t[0].Sep? then 1 else 0) + SepCount(t[1..])
  }

  /** True when `s` holds two adjacent `"` characters somewhere. */
  predicate HasDoubledQuote(s: string) {
    exists k :: 0 <= k < |s| - 1 && s[k] == '"' && s[k + 1] == '"'
  }

  /** The quote convention, starting in the given mode. */
  function Lex(s: string, inQuotes: bool): (t: seq<Token>)
    ensures |t| <= |s|
    decreases |s|
  {
    if s == [] then []
    else if s[0] == '"' then
      if inQuotes && |s| > 1 && s[1] == '"' then [Lit('"')] + Lex(s[2..], inQuotes)
      else Lex(s[1..], !inQuotes)
    else if s[0] == ',' && !inQuotes then [Sep] + Lex(s[1..], inQuotes)
    else [Lit(s[0])] + Lex(s[1..], inQuotes)
  }

  // One step of the scan, for each of its four cases.

  lemma LexEscapedQuote(s: string)
    requires |s| > 1 && s[0] == '"' && s[1] == '"'
    ensures Lex(s, true) == [Lit('"')] + Lex(s[2..], true)
  {
  }

  lemma LexToggle(s: string, inQuotes: bool)
    requires |s| > 0 && s[0] == '"' && !(inQuotes && |s| > 1 && s[1] == '"')
    ensures Lex(s, inQuotes) == Lex(s[1..], !inQuotes)
  {
  }

  lemma LexSep(s: string)
    requires |s| > 0 && s[0] == ','
    ensures Lex(s, false) == [Sep] + Lex(s[1..], false)
  {
  }

  lemma LexLit(s: string, inQuotes: bool)
    requires |s| > 0 && s[0] != '"' && !(s[0] == ',' && !inQuotes)
    ensures Lex(s, inQuotes) == [Lit(s[0])] + Lex(s[1..], inQuotes)
  {
  }

  lemma SplitFromSep(t: seq<Token>, cur: string)
    ensures SplitFrom([Sep] + t, cur) == [cur] + SplitFrom(t, [])
  {
    assert ([Sep] + t)[1..] == t;
  }

  lemma SplitFromLit(c: char, t: seq<Token>, cur: string)
    ensures SplitFrom([Lit(c)] + t, cur) == SplitFrom(t, cur + [c])
  {
    assert ([Lit(c)] + t)[1..] == t;
  }

  lemma CharsCons(k: Token, t: seq<Token>)
    ensures Chars([k] + t) == (if k.Lit? then [k.c] else []) + Chars(t)
  {
    assert ([k] + t)[1..] == t;
  }

  /** Every character other than `"` becomes exactly one token; a `"` either vanishes
      (it flips the mode) or, doubled inside quotes, the pair becomes one literal `"`.
      So the characters that disappear are exactly quote characters, and each `"`
      that survives used up two of them. */
  lemma {:induction false} LexDropsOnlyQuotes(s: string, inQuotes: bool)
    ensures var t := Lex(s, inQuotes);
            && |s| - |t| == Count('"', s) - Count('"', Chars(t))
            && 2 * Count('"', Chars(t)) <= Count('"', s)
    decreases |s|
  {
    if s != [] {
      if s[0] == '"' {
        if inQuotes && |s| > 1 && s[1] == '"' {
          LexDropsOnlyQuotes(s[2..], inQuotes);
          CharsCons(Lit('"'), Lex(s[2..], inQuotes));
          assert s[1..][1..] == s[2..];
        } else {
          LexDropsOnlyQuotes(s[1..], !inQuotes);
        }
      } else {
        LexDropsOnlyQuotes(s[1..], inQuotes);
        assert Count('"', s) == Count('"', s[1..]);
        if s[0] == ',' && !inQuotes {
          assert Lex(s, inQuotes) == [Sep] + Lex(s[1..], inQuotes);
          CharsCons(Sep, Lex(s[1..], inQuotes));
          var t, t' := Lex(s, inQuotes), Lex(s[1..], inQuotes);
          assert |t| == |t'| + 1;
          assert Chars(t) == Chars(t');
          assert |s[1..]| - |t'| == Count('"', s[1..]) - Count('"', Chars(t'));
        } else {
          CharsCons(Lit(s[0]), Lex(s[1..], inQuotes));
        }
      }
    }
  }

  /** Without two adjacent `"` in the text, no `"` is ever copied. */
  lemma {:induction false} LexNoDoubledQuote(s: string, inQuotes: bool)
    requires !HasDoubledQuote(s)
    ensures '"' !in Chars(Lex(s, inQuotes))
    decreases |s|
  {
    if s != [] {
      assert !HasDoubledQuote(s[1..]);
      if s[0] == '"' {
        assert !(|s| > 1 && s[1] == '"');
      }
      LexNoDoubledQuote(s[1..], !inQuotes);
      LexNoDoubledQuote(s[1..], inQuotes);
    }
  }

  /** Groups tokens into pieces: `cur` is the piece being built; each separator closes
      it and starts an empty one, and the piece open at the end is always emitted. */
  function SplitFrom(t: seq<Token>, cur: string): (cells: seq<string>)
    ensures |cells| == 1 + SepCount(t)
    ensures TotalLength(cells) + |cells| - 1 == |cur| + |t|
    ensures Flatten(cells) == cur + Chars(t)
  {
    if t == [] then [cur]
    else match t[0]
      case Sep => [cur] + SplitFrom(t[1..], [])
      case Lit(c) =>
        assert cur + Chars(t) == cur + [c] + Chars(t[1..]);
        SplitFrom(t[1..], cur + [c])
  }

  function Split(t: seq<Token>): (cells: seq<string>)
    ensures |cells| > 0
  {
    SplitFrom(t, [])
  }

  /** Sum of the lengths of the pieces. */
  function TotalLength(cells: seq<string>): nat {
    if cells == [] then 0 else |cells[0]| + TotalLength(cells[1..])
  }

  /** The pieces written one after the other, with nothing in between. */
  function Flatten(cells: seq<string>): string {
    if cells == [] then [] else cells[0] + Flatten(cells[1..])
  }

  /** The pieces joined with a `,` between neighbours. */
  function JoinCommas(cells: seq<string>): string
    requires |cells| > 0
  {
    if |cells| == 1 then cells[0] else cells[0] + [','] + JoinCommas(cells[1..])
  }
}
