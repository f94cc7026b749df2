/**
 The double-quoted strings of a source, read at the column the lexer keeps,
 against the value section 6.1.3 of RFC 7950 gives them.
 */
module Quotes {
  import opened Text
  import opened Wrappers
  import opened Lexing
  import opened Printer
  import opened Bodies
  import opened StringRule
  import opened TabStops
  import opened Strides
  import opened Columns
  import opened Drift
  import opened RoundTrip

  /**
   Wherever in a source a double-quoted string is read, it has the value the RFC
   gives to its lines exactly if each of them is read by the rule, whatever the
   lexer takes for the column of the quote. Escapes that are defined only inside
   a pattern count as well.
   */
  lemma QuoteReads(src: string, n: nat) returns (body: string)
    requires Walk(src, 0, n).Some?
    requires var p := Walk(src, 0, n).value;
             && p.rest != "" && p.rest[0] == '"'
             && LexSolid(p.rest, p.col).Read? && LexSolid(p.rest, p.col).token.Quoted?
    ensures var p := Walk(src, 0, n).value;
            var r := LexSolid(p.rest, p.col);
            var lines, width := Split(body, '\n'), Column(src, p) + 1;
            && p.rest == "\"" + body + "\"" + r.rest && (BreaksEscape(body) ==> r.token.badEscape)
            && (!BreaksEscape(body) ==>
                  (r.token.text == RuleValue(lines, width) <==> KeepsLines(lines, p.col + 1, width)))
  {
    hide AdvanceAll, Walk, ReadBody, IndexOf, WordLength, WellEscaped, RuleValue, KeepsLines, Split, HasBadLine;
    hide BreaksEscape;
    var p := Walk(src, 0, n).value;
    var s, t := p.rest[1..], p.col + 1;
    var m := BodyEnds(s, t, t, true, "", false);
    body := s[..m];
    var rest := s[m + 1..];
    assert s == body + ("\"" + rest);
    if !BreaksEscape(body) { ReadsTheRule(body, rest, t, Column(src, p) + 1); }
  }

  /**
   The column is right exactly if every string that keeps the rule at a right
   column gets its value.
   */
  lemma ColumnMatters(t: nat, u: nat)
    ensures t == u <==>
              forall body :: WellEscaped(body) && KeepsLines(Split(body, '\n'), t + 1, t + 1) ==>
                BodyText(body, t + 1) == RuleValue(Split(body, '\n'), u + 1)
  {
    hide ReadBody, WellEscaped, RuleValue, KeepsLines, Split, HasBadLine;
    forall body | WellEscaped(body) && KeepsLines(Split(body, '\n'), t + 1, t + 1)
      ensures BodyText(body, t + 1) == RuleValue(Split(body, '\n'), t + 1)
    {
      ReadsTheRule(body, "", t + 1, t + 1);
      assert body + ("\"" + "") == body + "\"";
    }
    if t != u {
      var far := (if t < u then u else t) + 1;
      var body := Indented(far);
      IndentedLegal(far);
      IndentedValue(far, t + 1);
      IndentedValue(far, u + 1);
      assert |RuleValue(Split(body, '\n'), t + 1)| != |RuleValue(Split(body, '\n'), u + 1)|;
    }
  }

  /** What the lexer reads of `body` when the opening quote ends at `indent`. */
  function BodyText(body: string, indent: nat): string {
    var b := ReadBody(body + "\"", indent, indent, true, "", false);
    if b.Open? then "" else b.text
  }

  /** A line feed, `far` spaces and a letter. */
  function Indented(far: nat): string {
    "\n" + Spaces(far) + "x"
  }

  lemma IndentedLines(far: nat)
    ensures Split(Indented(far), '\n') == ["", Spaces(far) + "x"]
  {
    var lines := ["", Spaces(far) + "x"];
    assert lines[1..] == [Spaces(far) + "x"];
    JoinHead(lines);
    JoinOne(Spaces(far) + "x", "\n");
    assert "" + "\n" + (Spaces(far) + "x") == Indented(far);
    SplitJoin(lines, '\n');
  }

  lemma {:induction false} SpacesLegal(n: nat, l: string)
    requires WellEscaped(l)
    ensures WellEscaped(Spaces(n) + l)
    decreases n
  {
    if n == 0 {
      assert Spaces(0) + l == l;
    } else {
      assert (Spaces(n) + l)[1..] == Spaces(n - 1) + l;
      SpacesLegal(n - 1, l);
    }
  }

  lemma IndentedLegal(far: nat)
    ensures WellEscaped(Indented(far))
  {
    SpacesLegal(far, "x");
    assert Indented(far)[1..] == Spaces(far) + "x";
  }

  /** Spaces within the limit all go. */
  lemma {:induction false} StripSpaces(n: nat, l: string, t: nat, limit: nat)
    requires t + n <= limit
    ensures Deindent(Spaces(n) + l, t, limit) == Deindent(l, t + n, limit)
    ensures Stripped(Spaces(n) + l, n) == l
    decreases n
  {
    if n == 0 {
      assert Spaces(0) + l == l;
    } else {
      assert (Spaces(n) + l)[1..] == Spaces(n - 1) + l;
      StripSpaces(n - 1, l, t + 1, limit);
    }
  }

  /** Such a text is read by the rule. */
  lemma IndentedValue(far: nat, indent: nat)
    requires indent <= far
    ensures var lines := Split(Indented(far), '\n');
            && RuleValue(lines, indent) == LexerText(lines, indent) == "\n" + Spaces(far - indent) + "x"
            && KeepsLines(lines, indent, indent)
  {
    hide Split, Deindent, Stripped, TrimBlanks, Subst, LexerText, RuleValue, KeepsLines;
    var lines := Split(Indented(far), '\n');
    var left := Spaces(far - indent) + "x";
    IndentedLines(far);
    TwoLines("", Spaces(far) + "x", indent);
    StripFar(far, indent);
    EmptyLine(0);
    assert TrimBlanks("") == "" && Ended("") == "" && "" + "\n" == "\n";
    SubstSpaces(far - indent);
    SpacesLegal(far, "x");
    assert LegalLine("");
    LinesDecide(lines, indent, indent);
  }

  lemma StripFar(far: nat, indent: nat)
    requires indent <= far
    ensures Deindent(Spaces(far) + "x", 0, indent) == Stripped(Spaces(far) + "x", indent) == Spaces(far - indent) + "x"
  {
    var left := Spaces(far - indent) + "x";
    StripSpaces(indent, left, 0, indent);
    assert Spaces(far) + "x" == Spaces(indent) + left;
  }

  lemma {:induction false} SubstSpaces(n: nat)
    ensures Subst(Spaces(n) + "x") == Spaces(n) + "x"
    decreases n
  {
    var l := Spaces(n) + "x";
    if n == 0 {
      assert l == "x" && l[1..] == "";
    } else {
      assert l[1..] == Spaces(n - 1) + "x" && l == [' '] + l[1..];
      SubstSpaces(n - 1);
    }
  }

  // ---------------------------------------------------------------- two sources

  /** A statement with a keyword of one letter and the argument of `Indented`, at column `t`. */
  function Short(far: nat): string {
    "k \"" + Indented(far) + "\";\n"
  }

  lemma ShortTokens(t: nat, far: nat)
    requires t + 3 <= far
    ensures Lex(Short(far), t) == [Word("k"), Quoted("\n" + Spaces(far - t - 3) + "x", false), Punct(';')]
  {
    hide Lex, ReadBody, RuleValue, Split, WellEscaped, KeepsLines, HasBadLine, AdvanceAll;
    var body := Indented(far);
    var quoted := "\"" + body + "\";\n";
    assert Short(far) == "k" + (" " + quoted);
    LexKeyword("k", " " + quoted, t);
    LexBlanks(" ", quoted, t + 1);
    AdvanceSpaces(t + 1, " ");
    assert quoted[0..] == quoted;
    LexDouble(quoted, 0, t + 2);
    assert quoted[1..] == body + ("\"" + ";\n");
    IndentedLegal(far);
    ReadsTheRule(body, ";\n", t + 3, t + 3);
    NothingBad(far);
    IndentedValue(far, t + 3);
    var b := ReadBody(quoted[1..], t + 3, t + 3, true, "", false);
    assert ";\n" == [';'] + "\n" + "";
    LexEnder(';', "\n", "", b.col);
    LexNothing();
  }

  lemma NothingBad(far: nat)
    ensures !HasBadLine(Split(Indented(far), '\n'))
  {
    hide Split;
    IndentedLines(far);
    SpacesNotBad(far);
    var lines := ["", Spaces(far) + "x"];
    EmptyLine(0);
    assert lines[1..] == [Spaces(far) + "x"] && lines[1..][1..] == [];
    assert !HasBadLine(lines[1..][1..]) && !HasBadLine(lines[1..]);
  }

  lemma {:induction false} SpacesNotBad(n: nat)
    ensures !HasBad(Spaces(n) + "x")
    decreases n
  {
    var l := Spaces(n) + "x";
    if n == 0 {
      assert l == "x" && l[1..] == "";
    } else {
      assert l[1..] == Spaces(n - 1) + "x";
      SpacesNotBad(n - 1);
    }
  }

  lemma AfterComment(inner: string, tail: string)
    requires inner in ["", "\n"]
    ensures Lex("/*" + inner + "*/" + tail, 0) == Lex(tail, 3)
  {
    hide Lex, IndexOf, At;
    var src := "/*" + inner + "*/" + tail;
    var n := |inner|;
    assert src[0..] == src && src[1] == '*';
    assert src[n + 4..] == tail;
    EndOfComment(inner, tail);
    CommentTail(inner, tail);
    LexBlockComment(src, 0, 0);
  }

  lemma CommentTail(inner: string, tail: string)
    ensures ("/*" + inner + "*/" + tail)[1..] == "*" + inner + "*/" + tail
  {
  }

  lemma EndOfComment(inner: string, tail: string)
    requires inner in ["", "\n"]
    ensures IndexOf("*" + inner + "*/" + tail, "*/") == |inner| + 1
  {
    var more := "*" + inner + "*/" + tail;
    var n := |inner|;
    assert more[n + 1..] == "*/" + tail;
    assert At(more, n + 1, "*/");
    assert more[0..][1] != '/' && more[n..][1] != '/';
    assert !At(more, 0, "*/") && !At(more, n, "*/");
  }

  /** After a comment on the line the column is too small: a blank is kept that the rule strips. */
  lemma ColumnTooSmall()
    ensures Tokens("/**/" + Short(7)) == [Word("k"), Quoted("\n x", false), Punct(';')]
    ensures AdvanceAll(0, "/**/k ") + 1 == 7
    ensures RuleValue(Split(Indented(7), '\n'), 7) == "\nx"
  {
    hide Lex, Split, RuleValue, AdvanceAll;
    var src := "/**/" + Short(7);
    assert src == "/*" + "" + "*/" + Short(7) && Terminated(src) == src;
    AfterComment("", Short(7));
    ShortTokens(3, 7);
    assert "\n" + Spaces(1) + "x" == "\n x";
    AdvanceWord(0, "/**/k ");
    IndentedValue(7, 7);
    assert "\n" + Spaces(0) + "x" == "\nx";
  }

  /** After a comment that began on an earlier line it is too large: a blank is stripped that the rule keeps. */
  lemma ColumnTooLarge()
    ensures Tokens("/*\n*/" + Short(6)) == [Word("k"), Quoted("\nx", false), Punct(';')]
    ensures AdvanceAll(0, "*/k ") + 1 == 5
    ensures RuleValue(Split(Indented(6), '\n'), 5) == "\n x"
  {
    hide Lex, Split, RuleValue, AdvanceAll;
    var src := "/*\n*/" + Short(6);
    assert src == "/*" + "\n" + "*/" + Short(6) && Terminated(src) == src;
    AfterComment("\n", Short(6));
    ShortTokens(3, 6);
    assert "\n" + Spaces(0) + "x" == "\nx";
    AdvanceWord(0, "*/k ");
    IndentedValue(6, 5);
    assert "\n" + Spaces(1) + "x" == "\n x";
  }
}
