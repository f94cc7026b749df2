/** Printing a statement tree and parsing the text gives the tree back. */
module RoundTrip {
  import opened Text
  import opened Lexing
  import opened LexerMachine
  import opened Grammar
  import opened Printer
  import opened Bodies
  import opened Rereads
  import Pieces
  import opened Wrappers

  /** A keyword the lexer reads as one unquoted string. */
  predicate IsKeyword(k: string) {
    StartsWord(k) && forall i :: 0 <= i < |k| ==> !Stops(k[i])
  }

  predicate Keeps(s: Statement)
    decreases s, 0
  {
    && IsKeyword(s.Keyword)
    && (if s.HasArgument then KeepsArgument(s.Keyword, s.Argument) else s.Argument == "")
    && KeepsAll(s.statements)
  }

  predicate KeepsAll(ss: seq<Statement>)
    decreases ss
  {
    ss == [] || (Keeps(ss[0]) && KeepsAll(ss[1..]))
  }

  /** A statement each of whose arguments is read as one string. */
  predicate Readable(s: Statement)
    decreases s, 0
  {
    && IsKeyword(s.Keyword)
    && (if s.HasArgument then ReadsArgument(s.Keyword, s.Argument) else s.Argument == "")
    && ReadableAll(s.statements)
  }

  predicate ReadableAll(ss: seq<Statement>)
    decreases ss
  {
    ss == [] || (Readable(ss[0]) && ReadableAll(ss[1..]))
  }

  /** The statement with its arguments as they are read. */
  function TreeBack(s: Statement): Statement
    decreases s, 0
  {
    s.(Argument := if s.HasArgument then ReadBack(s.Argument) else s.Argument, statements := ForestBack(s.statements))
  }

  function ForestBack(ss: seq<Statement>): (r: seq<Statement>)
    ensures |r| == |ss|
    decreases ss
  {
    if ss == [] then [] else [TreeBack(ss[0])] + ForestBack(ss[1..])
  }

  // ---------------------------------------------------------------- lexing printed text

  lemma {:induction false} KeywordLength(k: string, r: string)
    requires forall i :: 0 <= i < |k| ==> !Stops(k[i])
    requires r != "" && Stops(r[0])
    ensures WordLength(k + r) == |k|
  {
    if k == "" {
      assert k + r == r;
    } else {
      assert (k + r)[1..] == k[1..] + r;
      KeywordLength(k[1..], r);
    }
  }

  lemma LexKeyword(k: string, r: string, t: nat)
    requires IsKeyword(k) && r != "" && Stops(r[0]) && r[0] != '"' && r[0] != '\''
    ensures Lex(k + r, t) == [Word(k)] + Lex(r, t + |k|)
  {
    hide Lex;
    var s := k + r;
    KeywordLength(k, r);
    assert s[0..] == s && s[0] == k[0];
    assert |k| > 1 ==> s[1] == k[1];
    assert |k| == 1 ==> s[1] == r[0];
    LexWord(s, 0, t);
    assert s[0..|k|] == k && s[|k|..] == r;
  }

  /** White characters the last of which is a line feed. */
  predicate LineEnd(nl: string) {
    && nl != "" && nl[|nl| - 1] == '\n'
    && forall c :: c in nl ==> c == ' ' || c == '\t' || c == '\r' || c == '\n'
  }

  lemma AdvanceLineEnd(t: nat, nl: string)
    requires LineEnd(nl)
    ensures AdvanceAll(t, nl) == 0
  {
    var n := |nl| - 1;
    assert nl == nl[..n] + "\n";
    AdvanceConcat(t, nl[..n], "\n");
  }

  lemma LexEnder(c: char, nl: string, r: string, t: nat)
    requires c in ";{}" && LineEnd(nl)
    ensures Lex([c] + nl + r, t) == [Punct(c)] + Lex(r, 0)
  {
    hide Lex, AdvanceAll;
    var s := [c] + nl + r;
    assert s[0..] == s && s[1..] == nl + r;
    LexPunct(s, 0, t);
    Pieces.WhiteRun(nl, r, t + 1);
    AdvanceLineEnd(t + 1, nl);
  }

  lemma LexOpener(nl: string, r: string, t: nat)
    requires LineEnd(nl)
    ensures Lex(" {" + nl + r, t) == [Punct('{')] + Lex(r, 0)
  {
    hide Lex, AdvanceAll;
    assert " {" + nl + r == " " + ("{" + nl + r);
    LexBlanks(" ", "{" + nl + r, t);
    LexEnder('{', nl, r, AdvanceAll(t, " "));
  }

  /** The token the lexer reads from a printed argument. */
  lemma LexArgument(k: string, a: string, indent: string, r: string) returns (col: nat)
    requires ReadsArgument(k, a) && AllBlank(indent)
    ensures Lex(PrintArgument(k, a, indent) + r, AdvanceAll(0, indent) + |k|)
         == [Quoted(ReadBack(a), BadFirst(a))] + Lex(r, col)
  {
    hide Lex, ReadBody, Quote, AdvanceAll, Split, Continuation, ReadBack, BadFirst;
    var t := AdvanceAll(0, indent) + |k|;
    var s := PrintArgument(k, a, indent) + r;
    RereadWhole(k, a, indent, r);
    assert s == " " + s[1..] && s[1..][0] == '"' && s[1..][1..] == s[2..];
    LexBlanks(" ", s[1..], t);
    LexDouble(s[1..], 0, AdvanceAll(t, " "));
    AdvanceSpaces(t, " ");
    assert s[1..][0..] == s[1..];
    assert s[2..][0..] == s[2..];
    col := Reread(k, a, indent, r).col;
  }

  // ---------------------------------------------------------------- the tree

  /** The derivation the text of a printed statement has. */
  function ToDeriv(s: Statement): Deriv
    decreases s, 0
  {
    Deriv(s.Keyword,
          if s.HasArgument then Joined([Quoted(ReadBack(s.Argument), BadFirst(s.Argument))]) else NoArg,
          s.statements != [], ToDerivs(s.statements))
  }

  function ToDerivs(ss: seq<Statement>): seq<Deriv>
    decreases ss
  {
    if ss == [] then [] else [ToDeriv(ss[0])] + ToDerivs(ss[1..])
  }

  lemma {:induction false} ToDerivTree(s: Statement)
    requires Readable(s)
    ensures Legal(ToDeriv(s)) && Tree(ToDeriv(s)) == TreeBack(s)
    decreases s, 0
  {
    hide ReadBack, LegalAll;
    ToDerivsForest(s.statements);
    if s.HasArgument {
      var back := ReadBack(s.Argument);
      assert JoinedText([Quoted(back, BadFirst(s.Argument))]) == back + "";
    }
  }

  lemma {:induction false} ToDerivsForest(ss: seq<Statement>)
    requires ReadableAll(ss)
    ensures LegalAll(ToDerivs(ss)) && Forest(ToDerivs(ss)) == ForestBack(ss)
    decreases ss
  {
    hide Legal, Readable, TreeBack;
    if ss != [] {
      ToDerivTree(ss[0]);
      ToDerivsForest(ss[1..]);
      assert ToDerivs(ss)[1..] == ToDerivs(ss[1..]);
    }
  }

  /** An argument is read back as it was exactly if printing keeps it. */
  lemma ArgumentBackIsSame(k: string, a: string)
    requires ReadsArgument(k, a)
    ensures ReadBack(a) == a <==> KeepsArgument(k, a)
  {
    hide Split, Literal, NoBlankEnds, ReadsArgument;
    FirstLineHasNoBreak(a);
    var args := Split(a, '\n');
    if |args| == 1 {
      OneLineEnds(args);
    } else {
      assert LegalLine(args[0]) by { ReadsLegal(k, a); }
      BackIsSame(a);
    }
  }

  lemma ReadsLegal(k: string, a: string)
    requires ReadsArgument(k, a) && |Split(a, '\n')| > 1
    ensures LegalLine(Split(a, '\n')[0])
  {
    hide LegalLine, Split;
  }

  lemma {:induction false} TreeBackIsSame(s: Statement)
    requires Readable(s)
    ensures TreeBack(s) == s <==> Keeps(s)
    decreases s, 0
  {
    hide ReadBack, ReadsArgument, KeepsArgument, IsKeyword, ForestBack;
    ForestBackIsSame(s.statements);
    if s.HasArgument { ArgumentBackIsSame(s.Keyword, s.Argument); }
  }

  lemma {:induction false} ForestBackIsSame(ss: seq<Statement>)
    requires ReadableAll(ss)
    ensures ForestBack(ss) == ss <==> KeepsAll(ss)
    decreases ss
  {
    hide Readable, Keeps, TreeBack;
    if ss != [] {
      TreeBackIsSame(ss[0]);
      ForestBackIsSame(ss[1..]);
      assert ss == [ss[0]] + ss[1..];
      assert ForestBack(ss)[0] == TreeBack(ss[0]) && ForestBack(ss)[1..] == ForestBack(ss[1..]);
    }
  }

  lemma {:induction false} KeepsReadable(s: Statement)
    requires Keeps(s)
    ensures Readable(s)
    decreases s, 0
  {
    hide ReadsArgument, IsKeyword;
    KeepsAllReadable(s.statements);
  }

  lemma {:induction false} KeepsAllReadable(ss: seq<Statement>)
    requires KeepsAll(ss)
    ensures ReadableAll(ss)
    decreases ss
  {
    hide Keeps, Readable;
    if ss != [] {
      KeepsReadable(ss[0]);
      KeepsAllReadable(ss[1..]);
    }
  }

  lemma LexHead(s: Statement, indent: string, r: string) returns (col: nat)
    requires Readable(s) && AllBlank(indent)
    requires r != "" && Stops(r[0]) && r[0] != '"' && r[0] != '\''
    ensures Lex(PrintHead(s, indent) + r, 0)
         == [Word(s.Keyword)] + ArgYield(ToDeriv(s).arg) + Lex(r, col)
  {
    hide Lex, AdvanceAll, PrintArgument, ReadsArgument, ReadableAll, IsKeyword, ToDerivs, ReadBack, BadFirst;
    var k := s.Keyword;
    var t := AdvanceAll(0, indent);
    if s.HasArgument {
      var arg := PrintArgument(k, s.Argument, indent);
      assert PrintHead(s, indent) + r == indent + (k + (arg + r));
      LexBlanks(indent, k + (arg + r), 0);
      assert arg != "" && arg[0] == ' ' by { ArgumentStart(k, s.Argument, indent); }
      LexKeyword(k, arg + r, t);
      col := LexArgument(k, s.Argument, indent, r);
    } else {
      assert PrintHead(s, indent) + r == indent + (k + r);
      LexBlanks(indent, k + r, 0);
      LexKeyword(k, r, t);
      col := t + |k|;
    }
  }

  lemma ArgumentStart(k: string, a: string, indent: string)
    ensures PrintArgument(k, a, indent) != "" && PrintArgument(k, a, indent)[0] == ' '
  {
    hide Split, Quote, Continuation;
  }

  /** The statement as it is printed, but with `nl` for each line end outside of an argument. */
  function PrintEnding(s: Statement, indent: string, nl: string): string
    decreases s, 0
  {
    if s.Keyword == "" then PrintAllEnding(s.statements, indent, nl)
    else if s.statements == [] then PrintHead(s, indent) + ";" + nl
    else PrintHead(s, indent) + " {" + nl + PrintAllEnding(s.statements, indent + "\t", nl) + indent + "}" + nl
  }

  function PrintAllEnding(ss: seq<Statement>, indent: string, nl: string): string
    decreases ss
  {
    if ss == [] then "" else PrintEnding(ss[0], indent, nl) + PrintAllEnding(ss[1..], indent, nl)
  }

  lemma {:induction false} EndingIsPrint(s: Statement, indent: string)
    ensures PrintEnding(s, indent, "\n") == Print(s, indent)
    decreases s, 0
  {
    hide PrintHead;
    if s.Keyword == "" || s.statements == [] {
      AllEndingIsPrint(s.statements, indent);
    } else {
      AllEndingIsPrint(s.statements, indent + "\t");
      var head, body := PrintHead(s, indent), PrintAll(s.statements, indent + "\t");
      assert head + " {" + "\n" + body + indent + "}" + "\n" == head + " {\n" + body + indent + "}\n";
    }
  }

  lemma {:induction false} AllEndingIsPrint(ss: seq<Statement>, indent: string)
    ensures PrintAllEnding(ss, indent, "\n") == PrintAll(ss, indent)
    decreases ss
  {
    hide Print, PrintEnding;
    if ss != [] {
      EndingIsPrint(ss[0], indent);
      AllEndingIsPrint(ss[1..], indent);
    }
  }

  /** The tokens of a printed statement, whatever its line ends, are the yield of that derivation. */
  lemma {:induction false} LexEnding(s: Statement, indent: string, nl: string, r: string)
    requires Readable(s) && AllBlank(indent) && LineEnd(nl)
    ensures Lex(PrintEnding(s, indent, nl) + r, 0) == Yield(ToDeriv(s)) + Lex(r, 0)
    decreases s, 0
  {
    hide Lex, PrintHead, ReadsArgument, AdvanceAll, PrintAllEnding, YieldAll, ReadableAll, ReadBack, BadFirst, LineEnd;
    var head := PrintHead(s, indent);
    var d := ToDeriv(s);
    if s.statements == [] {
      var tail := ";" + nl + r;
      assert PrintEnding(s, indent, nl) + r == head + tail;
      var col := LexHead(s, indent, tail);
      LexEnder(';', nl, r, col);
    } else {
      var body := PrintAllEnding(s.statements, indent + "\t", nl);
      var ender := "}" + nl + r;
      var close := indent + ender;
      var tail := " {" + nl + (body + close);
      assert PrintEnding(s, indent, nl) + r == head + tail;
      var col := LexHead(s, indent, tail);
      LexOpener(nl, body + close, col);
      LexAllEnding(s.statements, indent + "\t", nl, close);
      LexBlanks(indent, ender, 0);
      LexEnder('}', nl, r, AdvanceAll(0, indent));
      assert Yield(d) == [Word(s.Keyword)] + ArgYield(d.arg) + ([Punct('{')] + YieldAll(d.subs) + [Punct('}')]);
    }
  }

  lemma {:induction false} LexAllEnding(ss: seq<Statement>, indent: string, nl: string, r: string)
    requires ReadableAll(ss) && AllBlank(indent) && LineEnd(nl)
    ensures Lex(PrintAllEnding(ss, indent, nl) + r, 0) == YieldAll(ToDerivs(ss)) + Lex(r, 0)
    decreases ss
  {
    hide Lex, PrintEnding, Yield, Readable, ToDeriv, LineEnd;
    if ss == [] {
      assert PrintAllEnding(ss, indent, nl) + r == r;
    } else {
      var more := PrintAllEnding(ss[1..], indent, nl) + r;
      assert PrintAllEnding(ss, indent, nl) + r == PrintEnding(ss[0], indent, nl) + more;
      LexEnding(ss[0], indent, nl, more);
      LexAllEnding(ss[1..], indent, nl, r);
      assert ToDerivs(ss)[1..] == ToDerivs(ss[1..]);
    }
  }

  /** The tokens of a printed statement are the yield of that derivation. */
  lemma LexPrint(s: Statement, indent: string, r: string)
    requires Readable(s) && AllBlank(indent)
    ensures Lex(Print(s, indent) + r, 0) == Yield(ToDeriv(s)) + Lex(r, 0)
  {
    hide Lex, Print, PrintEnding, Readable, Yield, ToDeriv;
    EndingIsPrint(s, indent);
    LexEnding(s, indent, "\n", r);
  }

  lemma PrintEnds(s: Statement, indent: string, nl: string)
    requires s.Keyword != "" && LineEnd(nl)
    ensures var text := PrintEnding(s, indent, nl); text != "" && text[|text| - 1] == '\n'
  {
    hide PrintHead, PrintAllEnding;
  }

  lemma {:induction false} PrintedEnds(ss: seq<Statement>, indent: string, nl: string)
    requires ReadableAll(ss) && LineEnd(nl)
    ensures var text := PrintAllEnding(ss, indent, nl); text == "" || text[|text| - 1] == '\n'
    decreases ss
  {
    hide PrintEnding, ReadsArgument, LineEnd;
    if ss != [] {
      PrintEnds(ss[0], indent, nl);
      PrintedEnds(ss[1..], indent, nl);
    }
  }

  /**
   Parsing a printed forest gives the forest with its arguments as they are
   read, if each of them is read as one string, whatever the line ends: line
   feeds, a carriage return before each, blanks and empty lines.
   */
  lemma EndingsParseBack(ss: seq<Statement>, indent: string, nl: string)
    requires ReadableAll(ss) && AllBlank(indent) && LineEnd(nl)
    ensures ParseText(PrintAllEnding(ss, indent, nl)) == Some(ForestBack(ss))
  {
    hide Lex, PrintAllEnding, YieldAll, ParseAll, ForestBack, ReadableAll, LineEnd;
    var text, back := PrintAllEnding(ss, indent, nl), ForestBack(ss);
    PrintedEnds(ss, indent, nl);
    LexAllEnding(ss, indent, nl, "");
    assert text + "" == text;
    LexNothing();
    assert YieldAll(ToDerivs(ss)) + [] == YieldAll(ToDerivs(ss));
    ToDerivsForest(ss);
    AllComplete([], ToDerivs(ss));
    assert [] + back == back;
  }

  /** A file with CRLF line ends parses to the forest that was printed. */
  lemma CrLfParse(ss: seq<Statement>, indent: string)
    requires KeepsAll(ss) && AllBlank(indent)
    ensures ParseText(PrintAllEnding(ss, indent, "\r\n")) == Some(ss)
  {
    hide PrintAllEnding, ForestBack, ParseText, KeepsAll, ReadableAll;
    KeepsAllReadable(ss);
    EndingsParseBack(ss, indent, "\r\n");
    ForestBackIsSame(ss);
  }

  lemma PrintParseBack(ss: seq<Statement>, indent: string)
    requires ReadableAll(ss) && AllBlank(indent)
    ensures ParseText(PrintAll(ss, indent)) == Some(ForestBack(ss))
  {
    hide PrintAll, PrintAllEnding, ForestBack, ParseText, ReadableAll;
    AllEndingIsPrint(ss, indent);
    EndingsParseBack(ss, indent, "\n");
  }

  /** Printing then parsing is the identity on the forests that printing keeps. */
  lemma PrintParse(ss: seq<Statement>, indent: string)
    requires KeepsAll(ss) && AllBlank(indent)
    ensures ParseText(PrintAll(ss, indent)) == Some(ss)
  {
    hide PrintAll, ForestBack, ParseText, KeepsAll, ReadableAll;
    KeepsAllReadable(ss);
    PrintParseBack(ss, indent);
    ForestBackIsSame(ss);
  }

  /** And on no others whose arguments are each read as one string. */
  lemma PrintParseIsExact(ss: seq<Statement>, indent: string)
    requires ReadableAll(ss) && AllBlank(indent)
    ensures ParseText(PrintAll(ss, indent)) == Some(ss) <==> KeepsAll(ss)
  {
    hide PrintAll, ForestBack, ParseText, KeepsAll, ReadableAll;
    PrintParseBack(ss, indent);
    ForestBackIsSame(ss);
  }

  lemma LexNothing()
    ensures Lex("", 0) == []
  {
  }

  // ---------------------------------------------------------------- the forms of an argument

  lemma PiecesParse(text: string, ps: seq<Pieces.Piece>, d: Deriv)
    requires Pieces.CutAs(ps, text, Yield(d)) && Legal(d) && text != "" && text[|text| - 1] == '\n'
    ensures ParseText(text) == Some([Grammar.Tree(d)])
  {
    hide ParseText, Tokens, Yield, Legal, Grammar.Tree;
    Pieces.SourceTokens(text, ps);
    assert [d][1..] == [];
    assert YieldAll([d]) == Yield(d) + [];
    assert Forest([d]) == [Grammar.Tree(d)] + Forest([]) == [Grammar.Tree(d)];
    assert LegalAll([d]);
    assert Derives([d], Tokens(text));
    ParserIsExact(text, [Grammar.Tree(d)]);
  }

  /** The end of a statement after its argument. */
  lemma EndPieces() returns (ps: seq<Pieces.Piece>)
    ensures Pieces.CutAs(ps, ";\n", [Punct(';')])
  {
    hide Pieces.CutAs;
    var feed, none: seq<Token> := Pieces.Space('\n'), [];
    Pieces.CutNothing();
    Pieces.CutMore(feed, [], "", none);
    assert Pieces.Spelling(feed) + "" == "\n" && Pieces.Meant(feed, 0) + none == none && [feed] + [] == [feed];
    Pieces.CutMore(Pieces.Mark(';'), [feed], "\n", none);
    assert Pieces.Spelling(Pieces.Mark(';')) + "\n" == ";\n" && [Punct(';')] + none == [Punct(';')];
    ps := [Pieces.Mark(';')] + [feed];
  }

  /** A keyword and a blank in front of the rest. */
  lemma KeyPieces(k: string, rest: seq<Pieces.Piece>, s: string, ts: seq<Token>) returns (ps: seq<Pieces.Piece>)
    requires Pieces.CutAs(rest, s, ts) && Pieces.Fits(Pieces.Plain(k), " " + s)
    ensures Pieces.CutAs(ps, k + " " + s, [Word(k)] + ts)
  {
    hide Pieces.CutAs;
    Pieces.CutMore(Pieces.Space(' '), rest, s, ts);
    assert [] + ts == ts;
    Pieces.CutMore(Pieces.Plain(k), [Pieces.Space(' ')] + rest, " " + s, ts);
    assert k + (" " + s) == k + " " + s;
    ps := [Pieces.Plain(k)] + ([Pieces.Space(' ')] + rest);
  }

  /** A word as argument is read as it stands. */
  lemma UnquotedArgument(k: string, x: string)
    requires Pieces.Fits(Pieces.Plain(k), " ") && Pieces.Fits(Pieces.Plain(x), ";")
    ensures ParseText(k + " " + x + ";\n") == Some([Statement(k, true, x, [])])
  {
    hide ParseText, Pieces.CutAs;
    var end := EndPieces();
    Pieces.CutMore(Pieces.Plain(x), end, ";\n", [Punct(';')]);
    var ps := KeyPieces(k, [Pieces.Plain(x)] + end, x + ";\n", [Word(x)] + [Punct(';')]);
    assert k + " " + (x + ";\n") == k + " " + x + ";\n";
    var d := Deriv(k, Grammar.Plain(x), false, []);
    assert Yield(d) == [Word(k)] + ([Word(x)] + [Punct(';')]);
    PiecesParse(k + " " + x + ";\n", ps, d);
  }

  lemma TwoParts(p: Token, q: Token)
    requires p.Quoted? && q.Quoted?
    ensures JoinedYield([p, q]) == [p] + ([Word("+")] + [q]) && JoinedText([p, q]) == p.text + q.text
  {
    assert [p, q][1..] == [q] && [q][1..] == [];
    assert JoinedText([q]) == q.text + "" == q.text;
  }

  /** Two quoted strings with a plus sign between them are read as their texts one after the other. */
  lemma SplitArgument(k: string, x: string, y: string)
    requires Pieces.Fits(Pieces.Plain(k), " ") && '\'' !in x && '\'' !in y
    ensures ParseText(k + " '" + x + "' + '" + y + "';\n") == Some([Statement(k, true, x + y, [])])
  {
    hide ParseText, Pieces.CutAs;
    var end := EndPieces();
    var a, b := "'" + x + "'", "'" + y + "'";
    var second := [Quoted(y, false)] + [Punct(';')];
    Pieces.CutMore(Pieces.Single(y), end, ";\n", [Punct(';')]);
    var ps := KeyPieces("+", [Pieces.Single(y)] + end, b + ";\n", second);
    var sum := [Word("+")] + second;
    Pieces.CutMore(Pieces.Space(' '), ps, "+" + " " + (b + ";\n"), sum);
    assert [] + sum == sum;
    var rest := " " + ("+" + " " + (b + ";\n"));
    Pieces.CutMore(Pieces.Single(x), [Pieces.Space(' ')] + ps, rest, sum);
    var all := KeyPieces(k, [Pieces.Single(x)] + ([Pieces.Space(' ')] + ps), a + rest, [Quoted(x, false)] + sum);
    var text := k + " '" + x + "' + '" + y + "';\n";
    assert k + " " + (a + rest) == text;
    var d := Deriv(k, Joined([Quoted(x, false), Quoted(y, false)]), false, []);
    TwoParts(Quoted(x, false), Quoted(y, false));
    assert Yield(d) == [Word(k)] + ([Quoted(x, false)] + sum);
    PiecesParse(text, all, d);
  }
}
