/**
 What the lexer reads of the text between two double quotes, line by line
 (lexQString of pkg/yang/lex.go).
 */
module Bodies {
  import opened Text
  import opened Lexing

  /**
   The text between two quotes: no bare quote, and every backslash has a
   character to go with it that is no line break.
   */
  predicate WellEscaped(s: string)
    decreases |s|
  {
    s == "" ||
    if s[0] == '\\' then |s| > 1 && s[1] != '\n' && WellEscaped(s[2..])
    else s[0] != '"' && WellEscaped(s[1..])
  }

  /** Some backslash stands right before a line break. */
  predicate BreaksEscape(s: string)
    decreases |s|
  {
    s != "" &&
    if s[0] == '\\' && |s| > 1 then s[1] == '\n' || BreaksEscape(s[2..]) else BreaksEscape(s[1..])
  }

  /** The same as being well escaped, where the last backslash may have lost its character. */
  predicate Cut(s: string)
    decreases |s|
  {
    s == "" ||
    if s[0] == '\\' then |s| == 1 || Cut(s[2..]) else Cut(s[1..])
  }

  /** The text with its escapes replaced. */
  function Subst(s: string): string
    decreases |s|
  {
    if s == "" then ""
    else if s[0] == '\\' && |s| > 1 then Unescape(s[1]) + Subst(s[2..])
    else [s[0]] + Subst(s[1..])
  }

  /** Some escape is one that is defined only inside a pattern. */
  predicate HasBad(s: string)
    decreases |s|
  {
    s != "" &&
    if s[0] == '\\' && |s| > 1 then !Escapable(s[1]) || HasBad(s[2..]) else HasBad(s[1..])
  }

  /** The last character stands for a tab that was written as an escape. */
  predicate EndsInTab(s: string)
    decreases |s|
  {
    s != "" &&
    if s[0] == '\\' && |s| > 1 then (|s| == 2 && s[1] == 't') || EndsInTab(s[2..]) else EndsInTab(s[1..])
  }

  /** `line`, read from column `t`, without its blanks up to column `indent`; a tab goes on to the next stop. */
  function Deindent(line: string, t: nat, indent: nat): string
    decreases |line|
  {
    if line != "" && Blank(line[0]) && Advance(t, line[0]) <= indent
    then Deindent(line[1..], Advance(t, line[0]), indent)
    else line
  }

  /** The lines without their indentation; the first one has none. */
  function Shown(lines: seq<string>, indent: nat): (r: seq<string>)
    requires lines != []
    ensures |r| == |lines|
  {
    [lines[0]] + DeindentAll(lines[1..], indent)
  }

  function DeindentAll(lines: seq<string>, indent: nat): (r: seq<string>)
    ensures |r| == |lines|
  {
    seq(|lines|, i requires 0 <= i < |lines| => Deindent(lines[i], 0, indent))
  }

  function SubstAll(lines: seq<string>): (r: seq<string>)
    ensures |r| == |lines|
  {
    seq(|lines|, i requires 0 <= i < |lines| => Subst(lines[i]))
  }

  /** What is read of the lines: the escapes are replaced, and then trailing blanks go. */
  function LexerText(lines: seq<string>, indent: nat): string
    requires lines != []
  {
    Join(TrimmedLines(SubstAll(Shown(lines, indent))), "\n")
  }

  // ---------------------------------------------------------------- reading lines

  /** A line without bare quotes or line breaks. */
  predicate LegalLine(l: string) {
    WellEscaped(l) && '\n' !in l
  }

  predicate LegalLines(lines: seq<string>) {
    forall i :: 0 <= i < |lines| ==> LegalLine(lines[i])
  }

  lemma {:induction false} LegalSplit(s: string)
    requires WellEscaped(s)
    ensures LegalLines(Split(s, '\n'))
    decreases |s|
  {
    if s != "" {
      if s[0] == '\\' {
        var e := s[1];
        LegalSplit(s[2..]);
        assert s[1..][1..] == s[2..] && s[1..][0] == e;
        var rest := Split(s[2..], '\n');
        var more := Split(s[1..], '\n');
        assert more == [[e] + rest[0]] + rest[1..];
        var first := ['\\'] + more[0];
        assert Split(s, '\n') == [first] + more[1..];
        assert first[2..] == rest[0] && first[1] == e;
      } else {
        LegalSplit(s[1..]);
        var rest := Split(s[1..], '\n');
        if s[0] != '\n' {
          var first := [s[0]] + rest[0];
          assert first[1..] == rest[0];
        }
      }
    }
  }

  /** One escape of a line. */
  lemma ReadEscape(l: string, r: string, t: nat, indent: nat, over: bool, text: string, bad: bool)
    requires LegalLine(l) && l != "" && l[0] == '\\'
    ensures |l| > 1 && LegalLine(l[2..])
    ensures Subst(l) == Unescape(l[1]) + Subst(l[2..]) && HasBad(l) == (!Escapable(l[1]) || HasBad(l[2..]))
    ensures AdvanceAll(t, l) == AdvanceAll(Advance(t + 1, l[1]), l[2..])
    ensures ReadBody(l + r, t, indent, over, text, bad)
         == ReadBody(l[2..] + r, Advance(t + 1, l[1]), indent, true,
                     text + Unescape(l[1]), bad || !Escapable(l[1]))
  {
    hide ReadBody;
    var s := l + r;
    assert s[0..] == s && s[0] == l[0];
    ReadBodyStep(s, 0, t, indent, over, text, bad);
    assert s[1] == l[1] && s[2..] == l[2..] + r;
    assert l[1..][0] == l[1] && l[1..][1..] == l[2..];
  }

  /** Any other character of a line past the indentation. */
  lemma ReadChar(l: string, r: string, t: nat, indent: nat, over: bool, text: string, bad: bool)
    requires LegalLine(l) && l != "" && l[0] != '\\'
    requires over || !Blank(l[0]) || Advance(t, l[0]) > indent
    ensures LegalLine(l[1..])
    ensures Subst(l) == [l[0]] + Subst(l[1..]) && HasBad(l) == HasBad(l[1..])
    ensures AdvanceAll(t, l) == AdvanceAll(Advance(t, l[0]), l[1..])
    ensures ReadBody(l + r, t, indent, over, text, bad)
         == ReadBody(l[1..] + r, Advance(t, l[0]), indent, true, text + [l[0]], bad)
  {
    hide ReadBody;
    var s := l + r;
    assert s[0..] == s && s[0] == l[0] && s[1..] == l[1..] + r;
    ReadBodyStep(s, 0, t, indent, over, text, bad);
  }

  /** A line without characters. */
  lemma EmptyLine(t: nat)
    ensures AdvanceAll(t, "") == t && Subst("") == "" && !HasBad("") && !EndsInTab("") && LegalLine("")
    ensures !BreaksEscape("")
  {
  }

  /** Past the indentation every character counts. */
  lemma {:induction false} ReadOver(l: string, r: string, t: nat, indent: nat, text: string, bad: bool)
    requires LegalLine(l)
    ensures ReadBody(l + r, t, indent, true, text, bad)
         == ReadBody(r, AdvanceAll(t, l), indent, true, text + Subst(l), bad || HasBad(l))
    decreases |l|
  {
    hide *;
    if l == "" {
      EmptyLine(t);
      assert l + r == r && text + Subst(l) == text;
    } else if l[0] == '\\' {
      ReadEscape(l, r, t, indent, true, text, bad);
      ReadOver(l[2..], r, Advance(t + 1, l[1]), indent, text + Unescape(l[1]), bad || !Escapable(l[1]));
      assert text + Unescape(l[1]) + Subst(l[2..]) == text + Subst(l);
    } else {
      ReadChar(l, r, t, indent, true, text, bad);
      ReadOver(l[1..], r, Advance(t, l[0]), indent, text + [l[0]], bad);
      assert text + [l[0]] + Subst(l[1..]) == text + Subst(l);
    }
  }

  /** One blank of the indentation. */
  lemma ReadBlank(l: string, r: string, t: nat, indent: nat, text: string, bad: bool)
    requires LegalLine(l) && l != "" && Blank(l[0])
    requires Advance(t, l[0]) <= indent
    ensures LegalLine(l[1..]) && HasBad(l) == HasBad(l[1..])
    ensures Deindent(l, t, indent) == Deindent(l[1..], Advance(t, l[0]), indent)
    ensures ReadBody(l + r, t, indent, false, text, bad)
         == ReadBody(l[1..] + r, Advance(t, l[0]), indent, false, text, bad)
  {
    hide ReadBody;
    var s := l + r;
    assert s[0..] == s && s[0] == l[0] && s[1..] == l[1..] + r;
    ReadBodyStep(s, 0, t, indent, false, text, bad);
  }

  lemma Undented(l: string, t: nat, indent: nat)
    requires l != "" ==> !Blank(l[0]) || Advance(t, l[0]) > indent
    ensures Deindent(l, t, indent) == l
  {
  }

  /** A line after the first: its indentation goes, the rest stays. */
  lemma {:induction false} ReadIndented(l: string, r: string, t: nat, indent: nat, text: string, bad: bool)
    returns (t1: nat, over: bool)
    requires LegalLine(l)
    ensures ReadBody(l + r, t, indent, false, text, bad)
         == ReadBody(r, t1, indent, over, text + Subst(Deindent(l, t, indent)), bad || HasBad(l))
    ensures LegalLine(Deindent(l, t, indent))
    decreases |l|
  {
    hide *;
    if l == "" {
      EmptyLine(t);
      Undented(l, t, indent);
      assert l + r == r && text + Subst(l) == text;
      t1, over := t, false;
    } else if Blank(l[0]) && Advance(t, l[0]) <= indent {
      ReadBlank(l, r, t, indent, text, bad);
      t1, over := ReadIndented(l[1..], r, Advance(t, l[0]), indent, text, bad);
    } else if l[0] == '\\' {
      Undented(l, t, indent);
      ReadEscape(l, r, t, indent, false, text, bad);
      ReadOver(l[2..], r, Advance(t + 1, l[1]), indent, text + Unescape(l[1]), bad || !Escapable(l[1]));
      assert text + Unescape(l[1]) + Subst(l[2..]) == text + Subst(l);
      t1, over := AdvanceAll(Advance(t + 1, l[1]), l[2..]), true;
    } else {
      Undented(l, t, indent);
      ReadChar(l, r, t, indent, false, text, bad);
      ReadOver(l[1..], r, Advance(t, l[0]), indent, text + [l[0]], bad);
      assert text + [l[0]] + Subst(l[1..]) == text + Subst(l);
      t1, over := AdvanceAll(Advance(t, l[0]), l[1..]), true;
    }
  }

  /** Some line has an escape defined only inside a pattern. */
  predicate HasBadLine(lines: seq<string>) {
    lines != [] && (HasBad(lines[0]) || HasBadLine(lines[1..]))
  }

  predicate Reads(b: Body, text: string, bad: bool, rest: string) {
    b.Closed? && b.text == text && b.bad == bad && b.rest == rest
  }

  lemma {:induction false} ReadIndentedLines(lines: seq<string>, r: string, indent: nat, text: string, bad: bool)
    requires lines != [] && LegalLines(lines)
    requires text != "" && text[|text| - 1] == '\n'
    ensures Reads(ReadBody(Join(lines, "\n") + ("\"" + r), 0, indent, false, text, bad),
                  text + Join(TrimmedLines(SubstAll(DeindentAll(lines, indent))), "\n"),
                  bad || HasBadLine(lines), r)
    decreases |lines|
  {
    hide ReadBody, TrimBlanks, Join, Deindent, Subst, HasBad, WellEscaped;
    var l := lines[0];
    var d := Deindent(l, 0, indent);
    var shown := SubstAll(DeindentAll(lines, indent));
    assert shown[0] == Subst(d);
    if |lines| == 1 {
      assert lines == [l] && shown == [Subst(d)];
      JoinOne(l, "\n");
      JoinOne(Subst(d), "\n");
      var t1, over := ReadIndented(l, "\"" + r, 0, indent, text, bad);
      ReadQuote(r, t1, indent, over, text + Subst(d), bad || HasBad(l));
    } else {
      var rest := lines[1..];
      var more := Join(rest, "\n") + ("\"" + r);
      JoinHead(lines);
      assert Join(lines, "\n") + ("\"" + r) == l + ("\n" + more);
      var t1, over := ReadIndented(l, "\n" + more, 0, indent, text, bad);
      ReadLineFeed(more, t1, indent, over, text + Subst(d), bad || HasBad(l));
      TrimLine(text, Subst(d));
      var text1 := text + TrimBlanks(Subst(d)) + "\n";
      ReadIndentedLines(rest, r, indent, text1, bad || HasBad(l));
      assert shown[1..] == SubstAll(DeindentAll(rest, indent));
      TrimmedJoin(shown);
      assert text1 + Join(TrimmedLines(shown[1..]), "\n")
          == text + (TrimBlanks(Subst(d)) + "\n" + Join(TrimmedLines(shown[1..]), "\n"));
    }
  }

  /** What the lexer reads: it replaces the escapes first and drops trailing blanks afterwards. */
  lemma ReadsLines(lines: seq<string>, r: string, indent: nat)
    requires lines != [] && LegalLines(lines)
    ensures Reads(ReadBody(Join(lines, "\n") + ("\"" + r), indent, indent, true, "", false),
                  LexerText(lines, indent), HasBadLine(lines), r)
  {
    hide ReadBody, TrimBlanks, Join, Deindent, DeindentAll, Subst, HasBad, WellEscaped;
    var l := lines[0];
    assert LegalLine(l);
    var shown := SubstAll(Shown(lines, indent));
    assert shown[0] == Subst(l) && "" + Subst(l) == Subst(l);
    if |lines| == 1 {
      assert lines == [l] && shown == [Subst(l)];
      JoinOne(l, "\n");
      JoinOne(Subst(l), "\n");
      ReadOver(l, "\"" + r, indent, indent, "", false);
      ReadQuote(r, AdvanceAll(indent, l), indent, true, Subst(l), HasBad(l));
    } else {
      var rest := lines[1..];
      var more := Join(rest, "\n") + ("\"" + r);
      JoinHead(lines);
      assert Join(lines, "\n") + ("\"" + r) == l + ("\n" + more);
      ReadOver(l, "\n" + more, indent, indent, "", false);
      ReadLineFeed(more, AdvanceAll(indent, l), indent, true, Subst(l), HasBad(l));
      ReadIndentedLines(rest, r, indent, TrimBlanks(Subst(l)) + "\n", HasBad(l));
      assert shown[1..] == SubstAll(DeindentAll(rest, indent));
      TrimmedJoin(shown);
    }
  }
}
