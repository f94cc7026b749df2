/** How Statement.Write of pkg/yang/parse.go lays a statement out: the indentation its comment promises. */
module Layouts {
  import opened Text
  import opened Grammar
  import opened Printer
  import Indent

  /** A piece of a line stays as it is, with the prefix if it starts the line. */
  lemma {:induction false} IndentPiece(p: string, x: string, atStart: bool)
    requires '\n' !in x && x != ""
    ensures Indent.Indented(p, x, atStart) == (if atStart then p else "") + x
    ensures Indent.OpenAfter(!atStart, x)
    decreases |x|
  {
    assert x == [x[0]] + x[1..];
    if |x| > 1 { IndentPiece(p, x[1..], false); }
  }

  /** Two texts of which the first leaves a line open. */
  lemma IndentTwo(p: string, a: string, b: string, atStart: bool)
    requires a != "" && a[|a| - 1] != '\n'
    ensures Indent.Indented(p, a + b, atStart) == Indent.Indented(p, a, atStart) + Indent.Indented(p, b, false)
  {
    hide Indent.Indented;
    Indent.IndentedConcat(p, a, b, !atStart);
  }

  /** Two texts of which the first is whole lines. */
  lemma IndentLines(p: string, a: string, b: string)
    requires a == "" || a[|a| - 1] == '\n'
    ensures Indent.Indented(p, a + b, true) == Indent.Indented(p, a, true) + Indent.Indented(p, b, true)
  {
    hide Indent.Indented;
    Indent.IndentedConcat(p, a, b, false);
  }

  /** A line ends in its only line feed. */
  lemma IndentLine(p: string, a: string, b: string, atStart: bool)
    requires '\n' !in a && a != ""
    ensures Indent.Indented(p, a + "\n" + b, atStart)
         == (if atStart then p else "") + a + "\n" + Indent.Indented(p, b, true)
  {
    hide Indent.Indented;
    IndentPiece(p, a, atStart);
    assert a + "\n" + b == a + ("\n" + b);
    IndentTwo(p, a, "\n" + b, atStart);
    Indent.IndentedStep(p, "\n" + b, false);
    assert ("\n" + b)[1..] == b;
  }

  lemma {:induction false} QuoteOneLine(s: string)
    requires '\n' !in s
    ensures '\n' !in Quote(s)
  {
    hide QuoteChar;
    if s != "" {
      assert s == [s[0]] + s[1..];
      QuoteCharOneLine(s[0]);
      QuoteOneLine(s[1..]);
    }
  }

  lemma QuoteCharOneLine(c: char)
    ensures c != '\n' ==> '\n' !in QuoteChar(c)
  {
    assert forall i :: 0 <= i < 16 ==> HEX[i] != '\n';
  }

  predicate OneLines(lines: seq<string>) {
    forall i :: 0 <= i < |lines| ==> '\n' !in lines[i]
  }

  lemma {:induction false} IndentContinuation(p: string, lines: seq<string>, pad: string)
    requires lines != [] && OneLines(lines) && '\n' !in pad && pad != ""
    ensures Continuation(lines, p + pad) == Indent.Indented(p, Continuation(lines, pad), true)
    ensures var t := Continuation(lines, pad); t != "" && t[|t| - 1] == '"'
  {
    hide Quote, Indent.Indented;
    var line := pad + Quote(lines[0]);
    QuoteOneLine(lines[0]);
    if |lines| == 1 {
      IndentPiece(p, line + "\"", true);
      assert p + (line + "\"") == p + pad + Quote(lines[0]) + "\"";
    } else {
      var more := Continuation(lines[1..], pad);
      IndentContinuation(p, lines[1..], pad);
      IndentLine(p, line, more, true);
      assert Continuation(lines, pad) == line + "\n" + more;
      assert p + line + "\n" == p + pad + Quote(lines[0]) + "\n";
    }
  }

  lemma SplitOneLines(a: string)
    ensures OneLines(Split(a, '\n'))
    ensures |Split(a, '\n')| == 1 ==> '\n' !in a
  {
    SplitParts(a, '\n');
    JoinSplit(a, '\n');
  }

  /** Only the lines after the first are indented; the last one stays open. */
  lemma IndentArgument(p: string, k: string, a: string, indent: string)
    requires '\n' !in indent
    ensures PrintArgument(k, a, p + indent) == Indent.Indented(p, PrintArgument(k, a, indent), false)
    ensures var t := PrintArgument(k, a, indent); t != "" && t[|t| - 1] == '"'
  {
    hide Quote, Continuation, Split, Indent.Indented, OneLines;
    var args := Split(a, '\n');
    SplitOneLines(a);
    if |args| == 1 {
      QuoteOneLine(a);
      IndentPiece(p, " \"" + Quote(a) + "\"", false);
    } else {
      RestOneLines(args);
      var pad := indent + " " + Spaces(|k| + 1);
      var first := " \"" + args[0];
      IndentContinuation(p, args[1..], pad);
      IndentLine(p, first, Continuation(args[1..], pad), false);
      assert p + pad == (p + indent) + " " + Spaces(|k| + 1);
      assert "" + first + "\n" == " \"" + args[0] + "\n";
      assert PrintArgument(k, a, indent) == first + "\n" + Continuation(args[1..], pad);
    }
  }

  lemma RestOneLines(lines: seq<string>)
    requires OneLines(lines) && |lines| > 1
    ensures '\n' !in lines[0] && OneLines(lines[1..])
  {
  }

  lemma IndentHead(p: string, s: Statement, indent: string)
    requires '\n' !in indent && '\n' !in s.Keyword && s.Keyword != ""
    ensures PrintHead(s, p + indent) == Indent.Indented(p, PrintHead(s, indent), true)
    ensures var t := PrintHead(s, indent); t != "" && t[|t| - 1] != '\n'
  {
    hide PrintArgument, Indent.Indented;
    var k := indent + s.Keyword;
    IndentPiece(p, k, true);
    assert p + k == p + indent + s.Keyword;
    if s.HasArgument {
      IndentArgument(p, s.Keyword, s.Argument, indent);
      IndentTwo(p, k, PrintArgument(s.Keyword, s.Argument, indent), true);
    } else {
      assert k + "" == k;
    }
  }

  /** No keyword holds a line feed. */
  predicate OneLineKeywords(s: Statement)
    decreases s, 0
  {
    '\n' !in s.Keyword && AllOneLineKeywords(s.statements)
  }

  predicate AllOneLineKeywords(ss: seq<Statement>)
    decreases ss
  {
    ss == [] || (OneLineKeywords(ss[0]) && AllOneLineKeywords(ss[1..]))
  }

  /** A text of whole lines. */
  predicate WholeLines(t: string) {
    t == "" || t[|t| - 1] == '\n'
  }

  /** Printing with more indentation puts it before every line. */
  lemma {:induction false} PrintIndents(p: string, s: Statement, indent: string)
    requires '\n' !in indent && OneLineKeywords(s)
    ensures Print(s, p + indent) == Indent.Indented(p, Print(s, indent), true)
    ensures WholeLines(Print(s, indent))
    decreases s, 0
  {
    hide PrintHead, PrintAll, AllOneLineKeywords, Indent.Indented;
    if s.Keyword == "" {
      PrintAllIndents(p, s.statements, indent);
    } else {
      var head := PrintHead(s, indent);
      IndentHead(p, s, indent);
      if s.statements == [] {
        IndentTwo(p, head, ";\n", true);
        ShortEnd(p, ';', "");
        Nothing(p);
        assert [';'] + "\n" + "" == ";\n";
      } else {
        var body, close := PrintAll(s.statements, indent + "\t"), indent + "}";
        PrintAllIndents(p, s.statements, indent + "\t");
        assert p + (indent + "\t") == (p + indent) + "\t";
        assert Print(s, indent) == head + (" {\n" + (body + (close + "\n")));
        IndentTwo(p, head, " {\n" + (body + (close + "\n")), true);
        IndentLine(p, " {", body + (close + "\n"), false);
        assert " {" + "\n" + (body + (close + "\n")) == " {\n" + (body + (close + "\n"));
        IndentLines(p, body, close + "\n");
        IndentLine(p, close, "", true);
        assert close + "\n" + "" == close + "\n";
        Nothing(p);
        BlockText(s, p, indent);
      }
    }
  }

  lemma Nothing(p: string)
    ensures Indent.Indented(p, "", true) == ""
  {
  }

  lemma ShortEnd(p: string, c: char, b: string)
    requires c != '\n'
    ensures Indent.Indented(p, [c] + "\n" + b, false) == [c] + "\n" + Indent.Indented(p, b, true)
  {
    hide Indent.Indented;
    IndentLine(p, [c], b, false);
  }

  lemma BlockText(s: Statement, p: string, indent: string)
    requires s.Keyword != "" && s.statements != []
    ensures Print(s, p + indent)
         == PrintHead(s, p + indent)
            + (" {" + "\n" + (PrintAll(s.statements, (p + indent) + "\t") + (p + (indent + "}") + "\n")))
  {
    hide PrintHead, PrintAll;
  }

  lemma {:induction false} PrintAllIndents(p: string, ss: seq<Statement>, indent: string)
    requires '\n' !in indent && AllOneLineKeywords(ss)
    ensures PrintAll(ss, p + indent) == Indent.Indented(p, PrintAll(ss, indent), true)
    ensures WholeLines(PrintAll(ss, indent))
    decreases ss
  {
    hide Print, OneLineKeywords, Indent.Indented;
    if ss == [] {
      Nothing(p);
    } else {
      PrintIndents(p, ss[0], indent);
      PrintAllIndents(p, ss[1..], indent);
      IndentLines(p, Print(ss[0], indent), PrintAll(ss[1..], indent));
    }
  }

  /** So the lines of a statement are those it has at the top, each after the indentation. */
  lemma IndentedLines(s: Statement, indent: string)
    requires OneLineKeywords(s)
    ensures Print(s, indent) == Indent.String(indent, Print(s, ""))
  {
    hide Print, Indent.String, OneLineKeywords;
    PrintIndents(indent, s, "");
    assert indent + "" == indent;
    Indent.StringIndents(indent, Print(s, ""));
  }

  /** And those of its children are between the lines with its braces, each after one tab more. */
  lemma ChildrenIndented(s: Statement)
    requires OneLineKeywords(s) && s.Keyword != "" && s.statements != []
    ensures var head := s.Keyword + if s.HasArgument then PrintArgument(s.Keyword, s.Argument, "") else "";
            Print(s, "") == head + " {\n" + Indent.String("\t", PrintAll(s.statements, "")) + "}\n"
  {
    hide PrintAll, Print, PrintHead, Indent.String, Indent.Indented, OneLineKeywords;
    Keywords(s);
    PrintAllIndents("\t", s.statements, "");
    assert "\t" + "" == "\t";
    Indent.StringIndents("\t", PrintAll(s.statements, ""));
    TopText(s);
  }

  lemma TopText(s: Statement)
    requires s.Keyword != "" && s.statements != []
    ensures var head := s.Keyword + if s.HasArgument then PrintArgument(s.Keyword, s.Argument, "") else "";
            Print(s, "") == head + " {\n" + PrintAll(s.statements, "\t") + "}\n"
  {
    hide PrintArgument, PrintAll;
    assert "" + s.Keyword == s.Keyword && "" + "\t" == "\t";
    var body := PrintAll(s.statements, "\t");
    assert body + "" + "}\n" == body + "}\n";
  }

  lemma Keywords(s: Statement)
    requires OneLineKeywords(s)
    ensures AllOneLineKeywords(s.statements)
  {
  }
}
