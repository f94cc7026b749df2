/**
 The token stream of a YANG source, as a function of the text still to be read
 and of the tab-expanded column at which it starts.
 */
module Lexing {
  import opened Text

  /**
   What the grammar sees of one token. `Broken` marks a quoted string or a
   comment that is never closed. `badEscape` records that a double-quoted
   string used an escape the language defines only inside a pattern.
   */
  datatype Token =
    | Word(text: string)
    | Quoted(text: string, badEscape: bool)
    | Punct(c: char)
    | Broken

  /** The column after reading `c` at column `t`; tabs stop every eight columns. */
  function Advance(t: nat, c: char): nat {
    if c == '\n' then 0
    else if c == '\t' then (t + 8) / 8 * 8
    else t + 1
  }

  /** The column after reading all of `s`. */
  function AdvanceAll(t: nat, s: string): nat
    decreases |s|
  {
    if s == "" then t else AdvanceAll(Advance(t, s[0]), s[1..])
  }

  predicate White(c: char) {
    c == ' ' || c == '\t' || c == '\r' || c == '\n'
  }

  /** A character that ends an unquoted string. */
  predicate Stops(c: char) {
    White(c) || c == ';' || c == '"' || c == '\'' || c == '{' || c == '}'
  }

  /** How many characters of `s` belong to the unquoted string it starts with. */
  function WordLength(s: string): (n: nat)
    ensures n <= |s|
    ensures forall i :: 0 <= i < n ==> !Stops(s[i])
    ensures n < |s| ==> Stops(s[n])
  {
    if s == "" || Stops(s[0]) then 0 else 1 + WordLength(s[1..])
  }

  /** The result of reading the body of a double-quoted string. */
  datatype Body = Open | Closed(text: string, bad: bool, rest: string, col: nat)

  /**
   Reads the body of a double-quoted string from `s` at column `t`. `indent` is
   the column after the opening quote; `over` says that the current line has
   shown a character past the indentation; `text` is what was read so far.
   */
  function ReadBody(s: string, t: nat, indent: nat, over: bool, text: string, bad: bool): (b: Body)
    ensures b.Closed? ==> |b.rest| < |s|
    decreases |s|
  {
    if s == "" then Open
    else
      var c := s[0];
      var t1 := Advance(t, c);
      if c == '"' then Closed(text, bad, s[1..], t1)
      else if c == '\n' then ReadBody(s[1..], t1, indent, false, TrimBlanks(text) + "\n", bad)
      else if Blank(c) then
        if !over && t1 <= indent
        then ReadBody(s[1..], t1, indent, false, text, bad)
        else ReadBody(s[1..], t1, indent, true, text + [c], bad)
      else if c == '\\' then
        if |s| == 1 then Open
        else
          var e := s[1];
          ReadBody(s[2..], Advance(t1, e), indent, true, text + Unescape(e), bad || !Escapable(e))
      else ReadBody(s[1..], t1, indent, true, text + [c], bad)
  }

  /** The characters that may follow a backslash outside a pattern. */
  predicate Escapable(e: char) {
    e == 'n' || e == 't' || e == '"' || e == '\\'
  }

  function Unescape(e: char): string {
    if e == 'n' then "\n"
    else if e == 't' then "\t"
    else if e == '"' || e == '\\' then [e]
    else ['\\', e]
  }

  /** One step of the lexer from the ground state. */
  datatype Step =
    | Skipped(rest: string, col: nat)
    | Read(token: Token, rest: string, col: nat)

  /** A step from a text that starts with no white space. */
  function LexSolid(s: string, t: nat): (r: Step)
    requires s != "" && !White(s[0])
    ensures |r.rest| < |s|
  {
    var c := s[0];
    if c == ';' || c == '{' || c == '}' then Read(Punct(c), s[1..], t + 1)
    else if c == '\'' then
      var x := IndexOf(s[1..], "'");
      if x < 0 then Read(Broken, s[1..], t + 1)
      else Read(Quoted(s[1..][..x], false), s[1..][x + 1..], t + 2)
    else if c == '"' then
      match ReadBody(s[1..], t + 1, t + 1, true, "", false)
      case Open => Read(Broken, "", 0)
      case Closed(text, bad, rest, col) => Read(Quoted(text, bad), rest, col)
    else if c == '/' && |s| > 1 && s[1] == '/' then
      var x := IndexOf(s[1..], "\n");
      if x < 0 then Read(Broken, s[1..], t + 1) else Skipped(s[1..][x..], t + 1)
    else if c == '/' && |s| > 1 && s[1] == '*' then
      var x := IndexOf(s[1..], "*/");
      if x < 0 then Read(Broken, s[1..], t + 1) else Skipped(s[1..][x + 2..], t + 3)
    else if c == '+' && |s| > 1 && (s[1] == '"' || s[1] == '\'') then
      Read(Word("+"), s[1..], t + 1)
    else
      var n := WordLength(s);
      Read(Word(s[..n]), s[n..], t + n)
  }

  /** The tokens of `s`, when its first character is read at column `t`. */
  function Lex(s: string, t: nat): seq<Token>
    decreases |s|
  {
    if s == "" then []
    else if White(s[0]) then Lex(s[1..], Advance(t, s[0]))
    else
      match LexSolid(s, t)
      case Skipped(rest, col) => Lex(rest, col)
      case Read(token, rest, col) =>
        if token.Broken? then [token] else [token] + Lex(rest, col)
  }

  /** The lexer sees every source newline-terminated. */
  function Terminated(input: string): string {
    if input != "" && input[|input| - 1] != '\n' then input + "\n" else input
  }

  function Tokens(input: string): seq<Token> {
    Lex(Terminated(input), 0)
  }

  /**
   Looking at a character and stepping back leaves the lexer's column on the
   last position of a tab, or at 0 before a line feed. Reading on is not
   affected.
   */
  function Glance(t: nat, c: char): nat {
    if c == '\n' then 0 else Advance(t, c) - 1
  }

  lemma {:induction false} LexAfterGlance(s: string, t: nat)
    requires s != ""
    ensures Advance(Glance(t, s[0]), s[0]) == Advance(t, s[0])
    ensures Lex(s, Glance(t, s[0])) == Lex(s, t)
  {
    var c := s[0];
    if c == '\t' {
      assert Glance(t, c) == (t + 8) / 8 * 8 - 1;
    }
    if !White(c) {
      assert Glance(t, c) == t;
    }
  }

  lemma LexStep(s: string, t: nat)
    requires s != "" && !White(s[0])
    ensures Lex(s, t) == (match LexSolid(s, t)
                          case Skipped(rest, col) => Lex(rest, col)
                          case Read(token, rest, col) =>
                            if token.Broken? then [token] else [token] + Lex(rest, col))
  {
  }

  // What the tokens of `s` from position `p` on are, by the character found there.

  lemma LexPunct(s: string, p: nat, t: nat)
    requires p < |s| && s[p] in ";{}"
    ensures Lex(s[p..], t) == [Punct(s[p])] + Lex(s[p + 1..], t + 1)
  {
    hide Lex, ReadBody, WordLength, IndexOf;
    LexStep(s[p..], t);
    assert s[p..][1..] == s[p + 1..];
  }

  lemma LexSingle(s: string, p: nat, t: nat)
    requires p < |s| && s[p] == '\''
    ensures var x := IndexOf(s[p + 1..], "'");
            Lex(s[p..], t) == if x < 0 then [Broken]
                              else [Quoted(s[p + 1..p + 1 + x], false)] + Lex(s[p + x + 2..], t + 2)
  {
    hide Lex, ReadBody, WordLength, IndexOf;
    LexStep(s[p..], t);
    assert s[p..][1..] == s[p + 1..];
    var x := IndexOf(s[p + 1..], "'");
    if x >= 0 {
      assert s[p + 1..][..x] == s[p + 1..p + 1 + x];
      assert s[p + 1..][x + 1..] == s[p + x + 2..];
    }
  }

  lemma LexLineComment(s: string, p: nat, t: nat)
    requires p + 1 < |s| && s[p] == '/' && s[p + 1] == '/'
    ensures var x := IndexOf(s[p + 1..], "\n");
            Lex(s[p..], t) == if x < 0 then [Broken] else Lex(s[p + 1 + x..], t + 1)
  {
    hide Lex, ReadBody, WordLength, IndexOf;
    LexStep(s[p..], t);
    assert s[p..][1..] == s[p + 1..];
    var x := IndexOf(s[p + 1..], "\n");
    if x >= 0 {
      assert s[p + 1..][x..] == s[p + 1 + x..];
    }
  }

  lemma LexBlockComment(s: string, p: nat, t: nat)
    requires p + 1 < |s| && s[p] == '/' && s[p + 1] == '*'
    ensures var x := IndexOf(s[p + 1..], "*/");
            Lex(s[p..], t) == if x < 0 then [Broken] else Lex(s[p + x + 3..], t + 3)
  {
    hide Lex, ReadBody, WordLength, IndexOf;
    LexStep(s[p..], t);
    assert s[p..][1..] == s[p + 1..];
    var x := IndexOf(s[p + 1..], "*/");
    if x >= 0 {
      assert s[p + 1..][x + 2..] == s[p + x + 3..];
    }
  }

  lemma LexPlus(s: string, p: nat, t: nat)
    requires p + 1 < |s| && s[p] == '+' && (s[p + 1] == '"' || s[p + 1] == '\'')
    ensures Lex(s[p..], t) == [Word("+")] + Lex(s[p + 1..], t + 1)
  {
    hide Lex, ReadBody, WordLength, IndexOf;
    LexStep(s[p..], t);
    assert s[p..][1..] == s[p + 1..];
  }

  /** `s` starts with an unquoted string. */
  predicate StartsWord(s: string) {
    && s != "" && !Stops(s[0])
    && (s[0] == '/' && |s| > 1 ==> s[1] != '/' && s[1] != '*')
    && (s[0] == '+' && |s| > 1 ==> s[1] != '"' && s[1] != '\'')
  }

  /** The tokens of `s` when position `p` is inside an unquoted string begun at `start`. */
  function WordTokens(s: string, start: nat, p: nat, t: nat): seq<Token>
    requires start <= p <= |s|
  {
    var n := WordLength(s[p..]);
    [Word(s[start..p + n])] + Lex(s[p + n..], t + n)
  }

  lemma LexWord(s: string, p: nat, t: nat)
    requires p < |s| && StartsWord(s[p..])
    ensures Lex(s[p..], t) == WordTokens(s, p, p, t)
  {
    hide Lex, ReadBody, IndexOf;
    LexStep(s[p..], t);
    var n := WordLength(s[p..]);
    assert s[p..][..n] == s[p..p + n];
    assert s[p..][n..] == s[p + n..];
  }

  lemma WordTokensNext(s: string, start: nat, p: nat, t: nat)
    requires start <= p < |s| && !Stops(s[p])
    ensures WordTokens(s, start, p, t) == WordTokens(s, start, p + 1, t + 1)
  {
    hide Lex;
    assert s[p..][1..] == s[p + 1..];
  }

  lemma WordTokensGlance(s: string, start: nat, p: nat, t: nat)
    requires start <= p < |s|
    ensures WordTokens(s, start, p, Glance(t, s[p])) == WordTokens(s, start, p, t)
  {
    assert s[p..][0] == s[p];
    if Stops(s[p]) {
      LexAfterGlance(s[p..], t);
    }
  }

  /** The word goes on after its first character, the next one having been looked at. */
  lemma LexWordOn(s: string, p: nat, t: nat)
    requires p < |s| && StartsWord(s[p..])
    ensures Lex(s[p..], t)
         == WordTokens(s, p, p + 1, if p + 1 < |s| then Glance(t + 1, s[p + 1]) else t + 1)
  {
    hide Lex, WordTokens;
    LexWord(s, p, t);
    WordTokensNext(s, p, p, t);
    if p + 1 < |s| {
      WordTokensGlance(s, p, p + 1, t + 1);
    }
  }

  /** The word ends at `p`, where the lexer has looked at the next character. */
  lemma WordTokensEnd(s: string, start: nat, p: nat, t: nat)
    requires start <= p <= |s| && (p < |s| ==> Stops(s[p]))
    ensures WordTokens(s, start, p, t)
         == [Word(s[start..p])] + Lex(s[p..], if p < |s| then Glance(t, s[p]) else t)
  {
    assert WordLength(s[p..]) == 0;
    if p < |s| {
      assert s[p..][0] == s[p];
      LexAfterGlance(s[p..], t);
    }
  }

  /** The tokens of `s` when the body of a double-quoted string starts at `p`. */
  function BodyTokens(s: string, p: nat, t: nat): seq<Token>
    requires p <= |s|
  {
    match ReadBody(s[p..], t, t, true, "", false)
    case Open => [Broken]
    case Closed(text, bad, rest, col) => [Quoted(text, bad)] + Lex(rest, col)
  }

  lemma LexDouble(s: string, p: nat, t: nat)
    requires p < |s| && s[p] == '"'
    ensures Lex(s[p..], t) == BodyTokens(s, p + 1, t + 1)
  {
    hide Lex, ReadBody, IndexOf, WordLength;
    LexStep(s[p..], t);
    assert s[p..][1..] == s[p + 1..];
  }

  /** One character, or one escape, of the body of a double-quoted string. */
  lemma ReadBodyStep(s: string, p: nat, t: nat, indent: nat, over: bool, text: string, bad: bool)
    requires p <= |s|
    ensures
      var b := ReadBody(s[p..], t, indent, over, text, bad);
      if p == |s| then b == Open
      else
        var c := s[p];
        var t1 := Advance(t, c);
        if c == '"' then b == Closed(text, bad, s[p + 1..], t1)
        else if c == '\n' then b == ReadBody(s[p + 1..], t1, indent, false, TrimBlanks(text) + "\n", bad)
        else if Blank(c) && !over && t1 <= indent then b == ReadBody(s[p + 1..], t1, indent, over, text, bad)
        else if c == '\\' then
          if p + 1 == |s| then b == Open
          else
            var e := s[p + 1];
            b == ReadBody(s[p + 2..], Advance(t1, e), indent, true, text + Unescape(e), bad || !Escapable(e))
        else b == ReadBody(s[p + 1..], t1, indent, true, text + [c], bad)
  {
    if p < |s| {
      assert s[p..][0] == s[p] && s[p..][1..] == s[p + 1..];
      if p + 1 < |s| {
        assert s[p..][1] == s[p + 1] && s[p..][2..] == s[p + 2..];
      }
    }
  }

  // A line feed and a quote end a line.

  lemma ReadLineFeed(r: string, t: nat, indent: nat, over: bool, text: string, bad: bool)
    ensures ReadBody("\n" + r, t, indent, over, text, bad)
         == ReadBody(r, 0, indent, false, TrimBlanks(text) + "\n", bad)
  {
    hide ReadBody;
    var s := "\n" + r;
    assert s[0..] == s && s[1..] == r;
    ReadBodyStep(s, 0, t, indent, over, text, bad);
  }

  lemma ReadQuote(r: string, t: nat, indent: nat, over: bool, text: string, bad: bool)
    ensures ReadBody("\"" + r, t, indent, over, text, bad) == Closed(text, bad, r, t + 1)
  {
    hide ReadBody;
    var s := "\"" + r;
    assert s[0..] == s && s[1..] == r;
    ReadBodyStep(s, 0, t, indent, over, text, bad);
  }

  /** Once a bad escape was seen, it stays recorded. */
  lemma {:induction false} BadStaysBad(s: string, t: nat, indent: nat, over: bool, text: string)
    ensures var b := ReadBody(s, t, indent, over, text, true); b.Closed? ==> b.bad
    decreases |s|
  {
    if s != "" {
      var c := s[0];
      var t1 := Advance(t, c);
      if c == '"' {
      } else if c == '\n' {
        BadStaysBad(s[1..], t1, indent, false, TrimBlanks(text) + "\n");
      } else if Blank(c) {
        if !over && t1 <= indent {
          BadStaysBad(s[1..], t1, indent, false, text);
        } else {
          BadStaysBad(s[1..], t1, indent, true, text + [c]);
        }
      } else if c == '\\' {
        if |s| > 1 {
          BadStaysBad(s[2..], Advance(t1, s[1]), indent, true, text + Unescape(s[1]));
        }
      } else {
        BadStaysBad(s[1..], t1, indent, true, text + [c]);
      }
    }
  }

  // ---------------------------------------------------------------- columns

  lemma {:induction false} AdvanceGrows(t: nat, s: string)
    requires forall i :: 0 <= i < |s| ==> Blank(s[i])
    ensures AdvanceAll(t, s) >= t
    decreases |s|
  {
    if s != "" { AdvanceGrows(Advance(t, s[0]), s[1..]); }
  }

  lemma {:induction false} AdvanceConcat(t: nat, a: string, b: string)
    ensures AdvanceAll(t, a + b) == AdvanceAll(AdvanceAll(t, a), b)
    decreases |a|
  {
    if a == "" {
      assert a + b == b;
    } else {
      assert (a + b)[1..] == a[1..] + b;
      AdvanceConcat(Advance(t, a[0]), a[1..], b);
    }
  }

  lemma {:induction false} AdvanceSpaces(t: nat, s: string)
    requires forall i :: 0 <= i < |s| ==> s[i] == ' '
    ensures AdvanceAll(t, s) == t + |s|
    decreases |s|
  {
    if s != "" { AdvanceSpaces(Advance(t, s[0]), s[1..]); }
  }

  lemma {:induction false} AdvanceWord(t: nat, x: string)
    requires '\n' !in x && '\t' !in x
    ensures AdvanceAll(t, x) == t + |x|
    decreases |x|
  {
    if x != "" {
      assert x[0] in x && forall c :: c in x[1..] ==> c in x;
      AdvanceWord(t + 1, x[1..]);
    }
  }

  lemma {:induction false} AdvanceAtLeast(t: nat, x: string)
    requires '\n' !in x
    ensures AdvanceAll(t, x) >= t + |x|
    decreases |x|
  {
    if x != "" {
      assert x == [x[0]] + x[1..];
      AdvanceAtLeast(Advance(t, x[0]), x[1..]);
    }
  }

  lemma {:induction false} AdvanceMonotone(t: nat, u: nat, x: string)
    requires t <= u
    ensures AdvanceAll(t, x) <= AdvanceAll(u, x)
    decreases |x|
  {
    if x != "" { AdvanceMonotone(Advance(t, x[0]), Advance(u, x[0]), x[1..]); }
  }

  lemma {:induction false} AdvanceLastLine(t: nat, x: string)
    requires '\n' in x
    ensures AdvanceAll(t, x) == AdvanceAll(0, LastLine(x))
    decreases |x|
  {
    assert x == [x[0]] + x[1..];
    if '\n' in x[1..] {
      AdvanceLastLine(Advance(t, x[0]), x[1..]);
    }
  }

  lemma {:induction false} LexBlanks(ind: string, r: string, t: nat)
    requires forall i :: 0 <= i < |ind| ==> Blank(ind[i])
    ensures Lex(ind + r, t) == Lex(r, AdvanceAll(t, ind))
    decreases |ind|
  {
    if ind == "" {
      assert ind + r == r;
    } else {
      assert (ind + r)[1..] == ind[1..] + r;
      LexBlanks(ind[1..], r, Advance(t, ind[0]));
    }
  }
}
