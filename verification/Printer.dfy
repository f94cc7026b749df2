/** Statement.Write of pkg/yang/parse.go: printing a statement tree as YANG text. */
module Printer {
  import opened Text
  import opened Grammar

  const HEX := "0123456789abcdef"

  /** How the %q verb writes one character between its quotes. */
  function QuoteChar(c: char): (q: string)
    ensures q != ""
  {
    if c == '"' then "\\\""
    else if c == '\\' then "\\\\"
    else if c == '\n' then "\\n"
    else if c == '\t' then "\\t"
    else if c == '\r' then "\\r"
    else if c as int == 7 then "\\a"
    else if c as int == 8 then "\\b"
    else if c as int == 11 then "\\v"
    else if c as int == 12 then "\\f"
    else if c < ' ' || c as int == 127 then
      var n := c as int;
      "\\x" + [HEX[n / 16], HEX[n % 16]]
    else [c]
  }

  /** The letters of the escapes of a Go literal, from the bell (7) to the carriage return (13). */
  const LETTERS := "abtnvfr"

  function HexValue(c: char): int {
    if c <= '9' then c as int - '0' as int else c as int - 'a' as int + 10
  }

  /** `q` stands for `c` between the quotes of a Go literal. */
  predicate GoReads(q: string, c: char) {
    || (|q| == 1 && q[0] == c && c != '"' && c != '\\')
    || (|q| == 2 && q[0] == '\\' && q[1] == c && (c == '"' || c == '\\'))
    || (|q| == 2 && q[0] == '\\' && 7 <= c as int <= 13 && q[1] == LETTERS[c as int - 7])
    || (|q| == 4 && q[..2] == "\\x" && HexValue(q[2]) * 16 + HexValue(q[3]) == c as int)
  }

  /** The form stands for the character, and shows only printable ones for ASCII. */
  lemma QuoteCharReads(c: char)
    ensures GoReads(QuoteChar(c), c)
    ensures c as int < 128 ==> forall i :: 0 <= i < |QuoteChar(c)| ==> ' ' <= QuoteChar(c)[i] <= '~'
  {
    var n := c as int;
    if n < 32 || n == 127 {
      assert forall i :: 0 <= i < 16 ==> HexValue(HEX[i]) == i && ' ' <= HEX[i] <= '~';
    }
  }

  /** The %q form of `s` without the quotes around it. */
  function Quote(s: string): string {
    if s == "" then "" else QuoteChar(s[0]) + Quote(s[1..])
  }

  /** The lines of a multi-line argument after its first one, and the closing quote. */
  function Continuation(lines: seq<string>, pad: string): string
    requires lines != []
  {
    if |lines| == 1 then pad + Quote(lines[0]) + "\""
    else pad + Quote(lines[0]) + "\n" + Continuation(lines[1..], pad)
  }

  function PrintArgument(keyword: string, argument: string, indent: string): string {
    var args := Split(argument, '\n');
    if |args| == 1 then " \"" + Quote(argument) + "\""
    else " \"" + args[0] + "\n" + Continuation(args[1..], indent + " " + Spaces(|keyword| + 1))
  }

  /** The statement up to its semicolon or opening brace. */
  function PrintHead(s: Statement, indent: string): string {
    indent + s.Keyword + if s.HasArgument then PrintArgument(s.Keyword, s.Argument, indent) else ""
  }

  function Print(s: Statement, indent: string): string
    decreases s, 0
  {
    if s.Keyword == "" then PrintAll(s.statements, indent)
    else if s.statements == [] then PrintHead(s, indent) + ";\n"
    else PrintHead(s, indent) + " {\n" + PrintAll(s.statements, indent + "\t") + indent + "}\n"
  }

  function PrintAll(ss: seq<Statement>, indent: string): string
    decreases ss
  {
    if ss == [] then "" else Print(ss[0], indent) + PrintAll(ss[1..], indent)
  }

  lemma {:induction false} PrintAllAppend(ss: seq<Statement>, s: Statement, indent: string)
    ensures PrintAll(ss + [s], indent) == PrintAll(ss, indent) + Print(s, indent)
  {
    hide Print;
    if ss == [] {
      assert [s][1..] == [];
    } else {
      assert (ss + [s])[1..] == ss[1..] + [s];
      PrintAllAppend(ss[1..], s, indent);
    }
  }

  /** The destination of the printed text. */
  class Output {
    var text: string

    constructor ()
      ensures text == ""
    {
      text := "";
    }

    method Emit(s: string)
      modifies this
      ensures text == old(text) + s
    {
      text := text + s;
    }
  }

  /** Appends the parts of the lines after the first one. */
  method ContinuationParts(front: seq<string>, rest: seq<string>, indent: string, i: string)
    returns (parts: seq<string>)
    requires rest != []
    ensures Join(parts, "") == Join(front, "") + Continuation(rest, indent + " " + i)
  {
    hide Join, Quote, Continuation;
    ghost var pad := indent + " " + i;
    ghost var whole := Join(front, "") + Continuation(rest, pad);
    parts := front;
    assert rest[0..] == rest;
    for x := 0 to |rest|
      invariant if x < |rest| then Join(parts, "") + Continuation(rest[x..], pad) == whole
                else Join(parts, "") == whole
    {
      var line := [indent, " ", i, Quote(rest[x]), if x == |rest| - 1 then "\"" else "\n"];
      JoinAppend(parts, line);
      JoinFive(line);
      ContinuationStep(rest, x, pad);
      assert line[0] + line[1] + line[2] == pad;
      parts := parts + line;
    }
  }

  /** The parts of a statement up to its semicolon or opening brace, joined. */
  method HeadParts(s: Statement, indent: string) returns (head: string)
    ensures head == PrintHead(s, indent)
  {
    hide Join, Quote, Continuation, Split;
    var parts := [indent + s.Keyword];
    if s.HasArgument {
      var args := Split(s.Argument, '\n');
      if |args| == 1 {
        parts := [parts[0], " \"" + Quote(s.Argument) + "\""];
        JoinTwo(parts[0], parts[1]);
      } else {
        var front := [parts[0], " \"", args[0], "\n"];
        JoinFour(front);
        parts := ContinuationParts(front, args[1..], indent, Spaces(|s.Keyword| + 1));
      }
    } else {
      JoinOne(parts[0], "");
    }
    head := Join(parts, "");
  }

  lemma ContinuationStep(rest: seq<string>, x: nat, pad: string)
    requires x < |rest|
    ensures Continuation(rest[x..], pad)
         == if x == |rest| - 1 then pad + Quote(rest[x]) + "\""
            else pad + Quote(rest[x]) + "\n" + Continuation(rest[x + 1..], pad)
  {
    if x < |rest| - 1 { assert rest[x..][1..] == rest[x + 1..]; }
  }

  lemma {:induction false} JoinAppend(a: seq<string>, b: seq<string>)
    ensures Join(a + b, "") == Join(a, "") + Join(b, "")
  {
    if a == [] {
      assert a + b == b;
    } else if |a| == 1 {
      if b == [] { assert a + b == a; } else { assert (a + b)[1..] == b; }
    } else {
      assert (a + b)[1..] == a[1..] + b;
      JoinAppend(a[1..], b);
    }
  }

  lemma JoinTwo(a: string, b: string)
    ensures Join([a, b], "") == a + b
  {
    assert [a, b][1..] == [b];
  }

  lemma JoinFour(p: seq<string>)
    requires |p| == 4
    ensures Join(p, "") == p[0] + p[1] + p[2] + p[3]
  {
    assert p == [p[0], p[1]] + [p[2], p[3]];
    JoinTwo(p[0], p[1]);
    JoinTwo(p[2], p[3]);
    JoinAppend([p[0], p[1]], [p[2], p[3]]);
  }

  lemma JoinFive(p: seq<string>)
    requires |p| == 5
    ensures Join(p, "") == p[0] + p[1] + p[2] + p[3] + p[4]
  {
    assert p == p[..4] + [p[4]];
    JoinFour(p[..4]);
    JoinAppend(p[..4], [p[4]]);
  }

  /** Writes the tree in `s`, each line indented by `indent`. */
  method Write(w: Output, s: Statement, indent: string)
    modifies w
    ensures w.text == old(w.text) + Print(s, indent)
    decreases s, 1
  {
    if s.Keyword == "" {
      WriteAll(w, s.statements, indent);
      return;
    }
    var head := HeadParts(s, indent);
    if |s.statements| == 0 {
      w.Emit(head + ";\n");
      return;
    }
    w.Emit(head + " {\n");
    WriteAll(w, s.statements, indent + "\t");
    w.Emit(indent + "}\n");
  }

  method WriteAll(w: Output, ss: seq<Statement>, indent: string)
    modifies w
    ensures w.text == old(w.text) + PrintAll(ss, indent)
    decreases ss, 0
  {
    hide Print;
    for i := 0 to |ss|
      invariant w.text == old(w.text) + PrintAll(ss[..i], indent)
    {
      assert ss[..i + 1] == ss[..i] + [ss[i]];
      PrintAllAppend(ss[..i], ss[i], indent);
      Write(w, ss[i], indent);
    }
    assert ss[..|ss|] == ss;
  }
}
