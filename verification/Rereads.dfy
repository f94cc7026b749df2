/**
 What reading the printed argument of a statement gives back (Write of
 pkg/yang/parse.go, lexQString of pkg/yang/lex.go).
 */
module Rereads {
  import opened Text
  import opened Lexing
  import opened Bodies
  import opened Printer

  /** Printable ASCII, tab or line feed. */
  predicate Printable(c: char) {
    ' ' <= c <= '~' || c == '\t' || c == '\n'
  }

  predicate AllPrintable(s: string) {
    forall i :: 0 <= i < |s| ==> Printable(s[i])
  }

  lemma {:induction false} ReadQuoted(p: string, r: string, t: nat, indent: nat, over: bool, text: string)
    requires forall i :: 0 <= i < |p| ==> Printable(p[i])
    requires over || t >= indent
    ensures ReadBody(Quote(p) + r, t, indent, over, text, false)
         == ReadBody(r, t + |Quote(p)|, indent, over || p != "", text + p, false)
    decreases |p|
  {
    hide ReadBody;
    if p == "" {
      assert Quote(p) + r == r && text + p == text;
    } else {
      var more := Quote(p[1..]) + r;
      assert Quote(p) + r == QuoteChar(p[0]) + more;
      ReadQuotedChar(p[0], more, t, indent, over, text);
      ReadQuoted(p[1..], r, t + |QuoteChar(p[0])|, indent, true, text + [p[0]]);
      assert text + [p[0]] + p[1..] == text + p;
    }
  }

  lemma ReadQuotedChar(c: char, r: string, t: nat, indent: nat, over: bool, text: string)
    requires Printable(c)
    requires over || t >= indent
    ensures ReadBody(QuoteChar(c) + r, t, indent, over, text, false)
         == ReadBody(r, t + |QuoteChar(c)|, indent, true, text + [c], false)
  {
    hide ReadBody;
    var s := QuoteChar(c) + r;
    assert s[0..] == s;
    ReadBodyStep(s, 0, t, indent, over, text, false);
    if |QuoteChar(c)| == 2 {
      assert s[2..] == r && s[0] == '\\' && s[1] == QuoteChar(c)[1];
      assert Unescape(s[1]) == [c];
    } else {
      assert s[1..] == r && s[0] == c;
    }
  }

  lemma EscapeAlone(q: string)
    ensures |q| == 1 ==> Subst(q) == q && !HasBad(q)
    ensures |q| == 2 && q[0] == '\\' ==> Subst(q) == Unescape(q[1]) && (HasBad(q) <==> !Escapable(q[1]))
    ensures |q| > 2 && q[0] == '\\' && !Escapable(q[1]) ==> |Subst(q)| > 1 && HasBad(q)
  {
    if |q| == 1 { assert q[1..] == ""; }
    if |q| == 2 { assert q[2..] == ""; }
  }

  /** Of ASCII, just the printable characters, tab and line feed are read back as they were; others break the escape. */
  lemma ControlLost(c: char)
    requires c as int < 128
    ensures Printable(c) <==> Subst(QuoteChar(c)) == [c] && !HasBad(QuoteChar(c))
    ensures Printable(c) <==> !HasBad(QuoteChar(c))
  {
    var q := QuoteChar(c);
    EscapeAlone(q);
    assert |q| == 1 || q[0] == '\\';
  }

  /** Indentation up to the column of the quote is dropped. */
  lemma {:induction false} ReadPad(pad: string, r: string, t: nat, indent: nat, text: string)
    requires forall i :: 0 <= i < |pad| ==> Blank(pad[i])
    requires AdvanceAll(t, pad) <= indent
    ensures ReadBody(pad + r, t, indent, false, text, false)
         == ReadBody(r, AdvanceAll(t, pad), indent, false, text, false)
    decreases |pad|
  {
    hide ReadBody;
    var s := pad + r;
    assert s[0..] == s;
    if pad == "" {
      assert s == r;
    } else {
      ReadBodyStep(s, 0, t, indent, false, text, false);
      AdvanceGrows(Advance(t, pad[0]), pad[1..]);
      assert s[1..] == pad[1..] + r;
      ReadPad(pad[1..], r, Advance(t, pad[0]), indent, text);
    }
  }

  /** A column does not matter before the next line feed is passed. */
  predicate ReadsTo(b: Body, text: string, rest: string) {
    b.Closed? && b.text == text && !b.bad && b.rest == rest
  }

  lemma ReadLine(l: string, pad: string, tail: string, indent: nat, text: string)
    requires AllPrintable(l) && AllBlank(pad) && AdvanceAll(0, pad) == indent
    ensures ReadBody(pad + Quote(l) + tail, 0, indent, false, text, false)
         == ReadBody(tail, indent + |Quote(l)|, indent, l != "", text + l, false)
  {
    hide ReadBody, Quote, AdvanceAll;
    assert pad + Quote(l) + tail == pad + (Quote(l) + tail);
    ReadPad(pad, Quote(l) + tail, 0, indent, text);
    ReadQuoted(l, tail, indent, indent, false, text);
  }

  /** Trimming shortens the text unless there is nothing to trim. */
  lemma {:induction false} TrimmedShorter(lines: seq<string>)
    requires lines != []
    ensures |Join(TrimmedLines(lines), "\n")| <= |Join(lines, "\n")|
    ensures (forall i :: 0 <= i < |lines| - 1 ==> TrimBlanks(lines[i]) == lines[i]) ==> TrimmedLines(lines) == lines
    ensures |Join(TrimmedLines(lines), "\n")| == |Join(lines, "\n")| ==>
              forall i :: 0 <= i < |lines| - 1 ==> TrimBlanks(lines[i]) == lines[i]
  {
    hide TrimBlanks;
    if |lines| > 1 {
      var rest := lines[1..];
      TrimmedShorter(rest);
      JoinHead(lines);
      JoinHead(TrimmedLines(lines));
      assert TrimmedLines(lines)[1..] == TrimmedLines(rest);
      if forall i :: 0 <= i < |lines| - 1 ==> TrimBlanks(lines[i]) == lines[i] {
        assert forall i :: 0 <= i < |rest| - 1 ==> TrimBlanks(rest[i]) == lines[i + 1];
        assert TrimmedLines(lines) == lines;
      }
      if |Join(TrimmedLines(lines), "\n")| == |Join(lines, "\n")| {
        TrimOnlyShrinks(lines[0]);
        forall i | 0 <= i < |lines| - 1
          ensures TrimBlanks(lines[i]) == lines[i]
        {
          if i > 0 { assert TrimBlanks(rest[i - 1]) == rest[i - 1]; }
        }
      }
    }
  }

  lemma TrimOnlyShrinks(l: string)
    ensures |TrimBlanks(l)| == |l| ==> TrimBlanks(l) == l
  {
    assert TrimBlanks(l) <= l;
  }

  predicate AllLinesPrintable(lines: seq<string>) {
    forall i :: 0 <= i < |lines| ==> AllPrintable(lines[i])
  }

  lemma {:induction false} ReadContinuation(lines: seq<string>, pad: string, r: string, indent: nat, text: string)
    requires lines != [] && AllLinesPrintable(lines)
    requires AllBlank(pad) && AdvanceAll(0, pad) == indent
    requires text != "" && text[|text| - 1] == '\n'
    ensures ReadsTo(ReadBody(Continuation(lines, pad) + r, 0, indent, false, text, false),
                    text + Join(TrimmedLines(lines), "\n"), r)
    decreases |lines|
  {
    hide ReadBody, Quote, TrimBlanks, AdvanceAll, AllPrintable, AllBlank, Join;
    var l := lines[0];
    var col := indent + |Quote(l)|;
    if |lines| == 1 {
      assert lines == [l];
      JoinOne(l, "\n");
      ReadLine(l, pad, "\"" + r, indent, text);
      assert Continuation(lines, pad) + r == pad + Quote(l) + ("\"" + r);
      ReadQuote(r, col, indent, l != "", text + l, false);
    } else {
      var more := Continuation(lines[1..], pad) + r;
      ReadLine(l, pad, "\n" + more, indent, text);
      assert Continuation(lines, pad) + r == pad + Quote(l) + ("\n" + more);
      ReadLineFeed(more, col, indent, l != "", text + l, false);
      TrimLine(text, l);
      var text1 := text + TrimBlanks(l) + "\n";
      ReadContinuation(lines[1..], pad, r, indent, text1);
      TrimmedJoin(lines);
      assert text1 + Join(TrimmedLines(lines[1..]), "\n")
          == text + (TrimBlanks(l) + "\n" + Join(TrimmedLines(lines[1..]), "\n"));
    }
  }

  /** What is read from the printed form of the argument `a` of `k`, which `r` follows. */
  function Reread(k: string, a: string, indent: string, r: string): Body {
    var t := AdvanceAll(0, indent) + |k| + 2;
    var s := PrintArgument(k, a, indent) + r;
    if |s| < 2 then Open else ReadBody(s[2..], t, t, true, "", false)
  }

  lemma RereadOneLine(k: string, a: string, indent: string, r: string)
    requires AllPrintable(a) && |Split(a, '\n')| == 1
    ensures ReadsTo(Reread(k, a, indent, r), a, r)
  {
    hide ReadBody, Quote, AdvanceAll, Split;
    var t := AdvanceAll(0, indent) + |k| + 2;
    var s := PrintArgument(k, a, indent) + r;
    assert s[2..] == Quote(a) + ("\"" + r);
    ReadQuoted(a, "\"" + r, t, t, true, "");
    assert "" + a == a;
    ReadQuote(r, t + |Quote(a)|, t, true, a, false);
  }

  lemma RereadLines(k: string, a: string, indent: string, r: string)
    requires |Split(a, '\n')| > 1
    ensures var args := Split(a, '\n');
            var t := AdvanceAll(0, indent) + |k| + 2;
            var more := Continuation(args[1..], indent + " " + Spaces(|k| + 1)) + r;
            Reread(k, a, indent, r) == ReadBody(args[0] + ("\n" + more), t, t, true, "", false)
  {
    hide ReadBody, Quote, AdvanceAll, Split, Continuation;
    var args := Split(a, '\n');
    var more := Continuation(args[1..], indent + " " + Spaces(|k| + 1)) + r;
    var s := PrintArgument(k, a, indent) + r;
    assert s[2..] == args[0] + ("\n" + more);
  }

  /** Reading on after the first of several lines. */
  lemma RereadRest(k: string, a: string, indent: string, r: string, t1: nat, text: string)
    requires AllPrintable(a) && |Split(a, '\n')| > 1 && AllBlank(indent)
    ensures var args := Split(a, '\n');
            var t := AdvanceAll(0, indent) + |k| + 2;
            var more := Continuation(args[1..], indent + " " + Spaces(|k| + 1)) + r;
            ReadsTo(ReadBody("\n" + more, t1, t, true, text, false),
                    TrimBlanks(text) + "\n" + Join(TrimmedLines(args[1..]), "\n"), r)
  {
    hide ReadBody, Quote, TrimBlanks, AdvanceAll, Split, Continuation, Join, AllPrintable;
    var args := Split(a, '\n');
    var t := AdvanceAll(0, indent) + |k| + 2;
    var pad := indent + " " + Spaces(|k| + 1);
    ReadLineFeed(Continuation(args[1..], pad) + r, t1, t, true, text, false);
    PadColumn(k, indent);
    LinesPrintable(a);
    ReadContinuation(args[1..], pad, r, t, TrimBlanks(text) + "\n");
  }

  // ---------------------------------------------------------------- the first of several lines

  /** How a raw line is read: to its end, up to a bare quote in it, or over its end by a lone backslash. */
  datatype Kind = Whole | Quoting | Cutting

  function KindOf(l: string): Kind
    decreases |l|
  {
    if l == "" then Whole
    else if l[0] == '"' then Quoting
    else if l[0] != '\\' then KindOf(l[1..])
    else if |l| == 1 then Cutting
    else KindOf(l[2..])
  }

  /** No quote, and no backslash but before a character that only a pattern may escape. */
  predicate Literal(l: string)
    decreases |l|
  {
    l == "" ||
    if l[0] == '\\' then |l| > 1 && !Escapable(l[1]) && Literal(l[2..])
    else l[0] != '"' && Literal(l[1..])
  }

  lemma {:induction false} KindSplits(l: string)
    requires NoLineFeed(l)
    ensures KindOf(l) == Whole <==> LegalLine(l)
    ensures KindOf(l) == Cutting ==> l != "" && l[|l| - 1] == '\\' && LegalLine(l[..|l| - 1])
    decreases |l|
  {
    if l != "" {
      if l[0] == '\\' && |l| > 1 {
        KindSplits(l[2..]);
        if KindOf(l) == Cutting { assert l[..|l| - 1][2..] == l[2..][..|l| - 3]; }
      } else if l[0] != '"' && l[0] != '\\' {
        KindSplits(l[1..]);
        if KindOf(l) == Cutting { assert l[..|l| - 1][1..] == l[1..][..|l| - 2]; }
      }
    }
  }

  lemma {:induction false} LiteralKind(l: string)
    requires Literal(l) && NoLineFeed(l)
    ensures KindOf(l) == Whole && KindOf(l + "\\") == Cutting
    decreases |l|
  {
    var m := l + "\\";
    if l == "" {
      assert m == "\\";
    } else if l[0] == '\\' {
      assert m[2..] == l[2..] + "\\";
      LiteralKind(l[2..]);
    } else {
      assert m[1..] == l[1..] + "\\";
      LiteralKind(l[1..]);
    }
  }

  /** Replacing the escapes keeps the length exactly if it keeps the line. */
  lemma {:induction false} LiteralIsSame(l: string)
    requires LegalLine(l)
    ensures |Subst(l)| <= |l|
    ensures Literal(l) ==> Subst(l) == l
    ensures |Subst(l)| == |l| ==> Literal(l)
    decreases |l|
  {
    if l != "" {
      if l[0] == '\\' {
        LiteralIsSame(l[2..]);
        assert Literal(l) ==> Subst(l) == ['\\', l[1]] + l[2..] == l;
      } else {
        LiteralIsSame(l[1..]);
      }
    }
  }

  /** An escape at fault is remembered, and changes nothing else. */
  lemma {:induction false} BadOnly(s: string, t: nat, indent: nat, over: bool, text: string)
    ensures var a, b := ReadBody(s, t, indent, over, text, false), ReadBody(s, t, indent, over, text, true);
            if a.Closed? then b == Closed(a.text, true, a.rest, a.col) else b == Open
    decreases |s|
  {
    hide ReadBody;
    assert s[0..] == s;
    ReadBodyStep(s, 0, t, indent, over, text, false);
    ReadBodyStep(s, 0, t, indent, over, text, true);
    if s != "" {
      var c := s[0];
      var t1 := Advance(t, c);
      if c == '\n' {
        BadOnly(s[1..], t1, indent, false, TrimBlanks(text) + "\n");
      } else if Blank(c) && !over && t1 <= indent {
        BadOnly(s[1..], t1, indent, over, text);
      } else if c == '\\' {
        if |s| > 1 {
          BadOnly(s[2..], Advance(t1, s[1]), indent, true, text + Unescape(s[1]));
          BadStaysBad(s[2..], Advance(t1, s[1]), indent, true, text + Unescape(s[1]));
        }
      } else if c != '"' {
        BadOnly(s[1..], t1, indent, true, text + [c]);
      }
    }
  }

  // ---------------------------------------------------------------- whole first lines

  /** An argument that is read as one string, without an error: no line written raw breaks it. */
  predicate ReadsArgument(k: string, a: string) {
    var args := Split(a, '\n');
    && AllPrintable(a)
    && (|args| > 1 ==> LegalLine(args[0]) && (HasBad(args[0]) ==> k == "pattern"))
  }

  /** No line but the last ends in a blank, from the `i`th on. */
  predicate NoBlankEnds(lines: seq<string>, i: nat) {
    forall j :: i <= j < |lines| - 1 ==> TrimBlanks(lines[j]) == lines[j]
  }

  /**
   An argument that printing keeps. The first of several lines is written
   without escapes, and blanks before a line break are dropped on reading.
   */
  predicate KeepsArgument(k: string, a: string) {
    var args := Split(a, '\n');
    ReadsArgument(k, a) && (|args| > 1 ==> Literal(args[0])) && NoBlankEnds(args, 0)
  }

  /** The argument that is read of one that is read as one string. */
  function ReadBack(a: string): string {
    var args := Split(a, '\n');
    if |args| == 1 then a else Join(TrimmedLines([Subst(args[0])] + args[1..]), "\n")
  }

  /** Whether it has an escape that only a pattern may have. */
  predicate BadFirst(a: string) {
    var args := Split(a, '\n');
    |args| > 1 && HasBad(args[0])
  }

  lemma FirstLineHasNoBreak(a: string)
    ensures var args := Split(a, '\n'); |args| > 0 && forall i :: 0 <= i < |args| ==> NoLineFeed(args[i])
  {
    hide Split;
    SplitParts(a, '\n');
  }

  /** A raw first line that does not break the string is read with its escapes replaced. */
  lemma RereadWhole(k: string, a: string, indent: string, r: string)
    requires AllPrintable(a) && AllBlank(indent)
    requires |Split(a, '\n')| > 1 ==> LegalLine(Split(a, '\n')[0])
    ensures Reads(Reread(k, a, indent, r), ReadBack(a), BadFirst(a), r)
  {
    hide ReadBody, Quote, TrimBlanks, AdvanceAll, Split, Continuation, Join, AllPrintable, Reread, Spaces, LegalLine,
         Subst, HasBad;
    FirstLineHasNoBreak(a);
    var args := Split(a, '\n');
    if |args| == 1 {
      RereadOneLine(k, a, indent, r);
    } else {
      var t, l := AdvanceAll(0, indent) + |k| + 2, args[0];
      var more := Continuation(args[1..], indent + " " + Spaces(|k| + 1)) + r;
      RereadLines(k, a, indent, r);
      ReadOver(l, "\n" + more, t, t, "", false);
      assert "" + Subst(l) == Subst(l);
      RereadRest(k, a, indent, r, AdvanceAll(t, l), Subst(l));
      BadOnly("\n" + more, AdvanceAll(t, l), t, true, Subst(l));
      TrimmedJoin([Subst(l)] + args[1..]);
      assert ([Subst(l)] + args[1..])[1..] == args[1..];
    }
  }

  /** That is the argument exactly if it has no escapes there, and no blanks at the ends of lines. */
  lemma BackIsSame(a: string)
    requires |Split(a, '\n')| > 1 && LegalLine(Split(a, '\n')[0])
    ensures var args := Split(a, '\n'); ReadBack(a) == a <==> Literal(args[0]) && NoBlankEnds(args, 0)
  {
    hide TrimBlanks, Split, Join, LegalLine, Subst, Literal;
    var args := Split(a, '\n');
    var lines := [Subst(args[0])] + args[1..];
    JoinSplit(a, '\n');
    LiteralIsSame(args[0]);
    JoinHead(args);
    JoinHead(lines);
    assert lines[1..] == args[1..] && args == [args[0]] + args[1..];
    TrimmedShorter(lines);
  }

  // ---------------------------------------------------------------- first lines that break the string

  /** A bare quote ends the string before the line does. */
  lemma {:induction false} ReadQuoting(l: string, more: string, t: nat, indent: nat, text: string, bad: bool)
    requires KindOf(l) == Quoting && NoLineFeed(l)
    ensures var b := ReadBody(l + ("\n" + more), t, indent, true, text, bad); b.Closed? && |b.rest| > |more|
    decreases |l|
  {
    hide ReadBody;
    var s := l + ("\n" + more);
    assert s[0..] == s && s[0] == l[0];
    ReadBodyStep(s, 0, t, indent, true, text, bad);
    if l[0] == '"' {
      assert s[1..] == l[1..] + ("\n" + more);
    } else if l[0] == '\\' {
      assert s[1] == l[1] && s[2..] == l[2..] + ("\n" + more);
      ReadQuoting(l[2..], more, Advance(t + 1, l[1]), indent, text + Unescape(l[1]), bad || !Escapable(l[1]));
    } else {
      assert s[1..] == l[1..] + ("\n" + more);
      ReadQuoting(l[1..], more, Advance(t, l[0]), indent, text + [l[0]], bad);
    }
  }

  lemma {:induction false} BlanksLegal(pad: string)
    requires AllBlank(pad)
    ensures LegalLine(pad) && Subst(pad) == pad && !HasBad(pad)
    decreases |pad|
  {
    if pad != "" { BlanksLegal(pad[1..]); }
  }

  /** A lone backslash at the end of the line `m` takes the line break with it, and the padding is read as text. */
  lemma ReadCutting(m: string, more: string, t: nat, indent: nat)
    requires LegalLine(m)
    ensures ReadBody(m + "\\" + ("\n" + more), t, indent, true, "", false)
         == ReadBody(more, 0, indent, true, Subst(m) + "\\\n", true)
  {
    hide ReadBody, LegalLine, Subst, AdvanceAll;
    var s := "\\\n" + more;
    assert m + "\\" + ("\n" + more) == m + s;
    ReadOver(m, s, t, indent, "", false);
    assert "" + Subst(m) == Subst(m) && s[0..] == s && s[2..] == more;
    ReadBodyStep(s, 0, AdvanceAll(t, m), indent, true, Subst(m), HasBad(m));
  }

  /** What is read after such a first line. */
  function AfterCut(pad: string, rest: seq<string>): string
    requires rest != []
  {
    if |rest| == 1 then pad + rest[0]
    else TrimBlanks(pad + rest[0]) + "\n" + Join(TrimmedLines(rest[1..]), "\n")
  }

  lemma ReadPadded(l: string, pad: string, tail: string, indent: nat, text: string)
    requires AllPrintable(l) && AllBlank(pad) && AdvanceAll(0, pad) == indent
    ensures ReadBody(pad + Quote(l) + tail, 0, indent, true, text, false)
         == ReadBody(tail, indent + |Quote(l)|, indent, true, text + (pad + l), false)
  {
    hide ReadBody, Quote, AdvanceAll, Subst, LegalLine, AllBlank;
    BlanksLegal(pad);
    assert pad + Quote(l) + tail == pad + (Quote(l) + tail);
    ReadOver(pad, Quote(l) + tail, 0, indent, text, false);
    ReadQuoted(l, tail, indent, indent, true, text + pad);
    Associate(text, pad, l);
  }

  lemma ReadAfterCut(rest: seq<string>, pad: string, r: string, indent: nat, text: string)
    requires rest != [] && AllLinesPrintable(rest) && AllBlank(pad) && AdvanceAll(0, pad) == indent
    requires text != "" && text[|text| - 1] == '\n'
    ensures ReadsTo(ReadBody(Continuation(rest, pad) + r, 0, indent, true, text, false),
                    text + AfterCut(pad, rest), r)
  {
    hide ReadBody, Quote, TrimBlanks, AdvanceAll, AllBlank, AllPrintable, Join, Continuation;
    var l := rest[0];
    var col := indent + |Quote(l)|;
    if |rest| == 1 {
      LastContinuation(rest, pad, r);
      ReadPadded(l, pad, "\"" + r, indent, text);
      ReadQuote(r, col, indent, true, text + (pad + l), false);
    } else {
      var more := Continuation(rest[1..], pad) + r;
      NextContinuation(rest, pad, r);
      ReadPadded(l, pad, "\n" + more, indent, text);
      ReadLineFeed(more, col, indent, true, text + (pad + l), false);
      TrimLine(text, pad + l);
      var trimmed, j := TrimBlanks(pad + l), Join(TrimmedLines(rest[1..]), "\n");
      ReadContinuation(rest[1..], pad, r, indent, text + trimmed + "\n");
      assert text + trimmed + "\n" + j == text + (trimmed + "\n" + j);
    }
  }

  lemma LastContinuation(rest: seq<string>, pad: string, r: string)
    requires |rest| == 1
    ensures Continuation(rest, pad) + r == pad + Quote(rest[0]) + ("\"" + r)
  {
    hide Quote;
  }

  lemma NextContinuation(rest: seq<string>, pad: string, r: string)
    requires |rest| > 1
    ensures Continuation(rest, pad) + r == pad + Quote(rest[0]) + ("\n" + (Continuation(rest[1..], pad) + r))
  {
    hide Quote;
    var q, more := pad + Quote(rest[0]), Continuation(rest[1..], pad);
    assert q + "\n" + more + r == q + ("\n" + (more + r));
  }

  lemma FeedsAgree(u: string, x: string, v: string, y: string)
    requires NoLineFeed(v) && |u| <= |v| && u + "\n" + x == v + "\n" + y
    ensures u == v && x == y
  {
    var w := u + "\n" + x;
    assert w == v + "\n" + y && w[|u|] == '\n';
    assert forall i :: 0 <= i < |v| ==> w[i] == v[i];
    assert w[..|u|] == u && w[|u| + 1..] == x;
    assert w[..|v|] == v && w[|v| + 1..] == y;
  }

  /** The padding is dropped only from a line of nothing but blanks. */
  lemma PadTrims(pad: string, l: string)
    requires AllBlank(pad) && pad != ""
    ensures TrimBlanks(pad + l) == l <==> l == ""
  {
    hide TrimBlanks;
    if l == "" {
      assert pad + l == pad;
      TrimAway(pad);
    } else if Blank(l[|l| - 1]) {
      TrimEnd(pad + l);
    } else {
      TrimKept(pad + l);
      assert (pad + l)[|pad + l| - 1] == l[|l| - 1] && |pad + l| > |l|;
    }
  }

  lemma {:induction false} TrimAway(b: string)
    requires AllBlank(b)
    ensures TrimBlanks(b) == ""
    decreases |b|
  {
    if b != "" { TrimAway(b[..|b| - 1]); }
  }

  lemma TrimKept(s: string)
    requires s != "" && !Blank(s[|s| - 1])
    ensures TrimBlanks(s) == s
  {
  }

  lemma {:induction false} TrimEnd(s: string)
    ensures var t := TrimBlanks(s); t != "" ==> !Blank(t[|t| - 1])
    decreases |s|
  {
    if s != "" && Blank(s[|s| - 1]) { TrimEnd(s[..|s| - 1]); }
  }

  /** A pattern whose first line ends in a lone backslash, followed by an empty line that is not the last. */
  predicate KeepsCut(k: string, a: string) {
    var args := Split(a, '\n');
    && k == "pattern" && AllPrintable(a) && |args| > 2 && args[1] == "" && NoBlankEnds(args, 2)
    && args[0] != "" && args[0][|args[0]| - 1] == '\\' && Literal(args[0][..|args[0]| - 1])
  }

  /** Only then is what is read the argument. */
  lemma CutIsSame(m: string, pad: string, rest: seq<string>)
    requires LegalLine(m) && AllBlank(pad) && pad != "" && rest != []
    requires forall i :: 0 <= i < |rest| ==> NoLineFeed(rest[i])
    ensures Subst(m) + "\\\n" + AfterCut(pad, rest) == m + "\\" + "\n" + Join(rest, "\n")
       <==> Literal(m) && |rest| > 1 && rest[0] == "" && NoBlankEnds(rest, 1)
  {
    hide *;
    var u, v, x, y := Subst(m) + "\\", m + "\\", AfterCut(pad, rest), Join(rest, "\n");
    BackslashFeed(Subst(m));
    Associate(Subst(m), "\\", "\n");
    LiteralIsSame(m);
    LegalHasNoLineFeed(m);
    SameRest(pad, rest);
    if u + "\n" + x == v + "\n" + y {
      FeedsAgree(u, x, v, y);
      assert |u| == |Subst(m)| + 1 && |v| == |m| + 1;
    }
  }

  lemma BackslashFeed(s: string)
    ensures s + "\\\n" == s + "\\" + "\n"
  {
    assert "\\" + "\n" == "\\\n";
  }

  lemma LegalHasNoLineFeed(m: string)
    requires LegalLine(m)
    ensures NoLineFeed(m) && NoLineFeed(m + "\\")
  {
    hide WellEscaped;
  }

  lemma AfterCutLast(pad: string, rest: seq<string>)
    requires |rest| == 1
    ensures |AfterCut(pad, rest)| == |pad| + |rest[0]|
  {
  }

  lemma AfterCutMore(pad: string, rest: seq<string>)
    requires |rest| > 1
    ensures AfterCut(pad, rest) == TrimBlanks(pad + rest[0]) + "\n" + Join(TrimmedLines(rest[1..]), "\n")
  {
    hide TrimBlanks, Join;
  }

  lemma SameRest(pad: string, rest: seq<string>)
    requires AllBlank(pad) && pad != "" && rest != [] && forall i :: 0 <= i < |rest| ==> NoLineFeed(rest[i])
    ensures AfterCut(pad, rest) == Join(rest, "\n") <==> |rest| > 1 && rest[0] == "" && NoBlankEnds(rest, 1)
  {
    hide *;
    var l := rest[0];
    if |rest| == 1 {
      assert rest == [l];
      JoinOne(l, "\n");
      AfterCutLast(pad, rest);
    } else {
      var more := rest[1..];
      AfterCutMore(pad, rest);
      JoinHead(rest);
      PadTrims(pad, l);
      TrimmedSame(more);
      EndsShift(rest);
      PaddedHasNoLineFeed(pad, l);
      FeedSplits(TrimBlanks(pad + l), Join(TrimmedLines(more), "\n"), l, Join(more, "\n"));
    }
  }

  lemma TrimmedSame(lines: seq<string>)
    requires lines != []
    ensures Join(TrimmedLines(lines), "\n") == Join(lines, "\n") <==> NoBlankEnds(lines, 0)
  {
    hide TrimBlanks, Join;
    TrimmedShorter(lines);
  }

  lemma FeedSplits(u: string, x: string, v: string, y: string)
    requires NoLineFeed(u) && NoLineFeed(v)
    ensures u + "\n" + x == v + "\n" + y <==> u == v && x == y
  {
    if u + "\n" + x == v + "\n" + y {
      if |u| <= |v| { FeedsAgree(u, x, v, y); } else { FeedsAgree(v, y, u, x); }
    }
  }

  lemma EndsShift(rest: seq<string>)
    requires rest != []
    ensures NoBlankEnds(rest, 1) <==> NoBlankEnds(rest[1..], 0)
  {
    hide TrimBlanks;
    var more := rest[1..];
    assert forall j :: 0 <= j < |more| ==> more[j] == rest[j + 1];
    if NoBlankEnds(more, 0) {
      forall j | 1 <= j < |rest| - 1
        ensures TrimBlanks(rest[j]) == rest[j]
      {
        assert rest[j] == more[j - 1];
      }
    }
  }

  lemma PaddedHasNoLineFeed(pad: string, l: string)
    requires AllBlank(pad) && NoLineFeed(l)
    ensures NoLineFeed(TrimBlanks(pad + l))
  {
    assert TrimBlanks(pad + l) <= pad + l;
  }

  // ---------------------------------------------------------------- which arguments survive

  /** The string is read as `text`, up to the end, with no escape that is an error for `k`. */
  predicate ReadsAs(b: Body, k: string, text: string, rest: string) {
    b.Closed? && b.text == text && b.rest == rest && (b.bad ==> k == "pattern")
  }

  /** Exactly the arguments that these predicates name are read back as they were printed. */
  lemma RereadIsExact(k: string, a: string, indent: string, r: string)
    requires AllPrintable(a) && AllBlank(indent)
    ensures ReadsAs(Reread(k, a, indent, r), k, a, r) <==> KeepsArgument(k, a) || KeepsCut(k, a)
  {
    hide Reread, Split, Literal, KindOf, LegalLine, NoBlankEnds, AllPrintable, ReadBack;
    FirstLineHasNoBreak(a);
    var args := Split(a, '\n');
    if |args| == 1 {
      RereadOneLine(k, a, indent, r);
      assert NoBlankEnds(args, 0) by { OneLineEnds(args); }
    } else {
      var l := args[0];
      KindSplits(l);
      if l != "" && l[|l| - 1] == '\\' && Literal(l[..|l| - 1]) {
        assert l == l[..|l| - 1] + "\\";
        LiteralKind(l[..|l| - 1]);
      }
      match KindOf(l)
      case Whole =>
        RereadWhole(k, a, indent, r);
        BackIsSame(a);
      case Quoting =>
        RereadQuoting(k, a, indent, r);
      case Cutting =>
        RereadCutting(k, a, indent, r);
    }
  }

  lemma OneLineEnds(args: seq<string>)
    requires |args| == 1
    ensures NoBlankEnds(args, 0)
  {
  }

  lemma RereadQuoting(k: string, a: string, indent: string, r: string)
    requires |Split(a, '\n')| > 1 && KindOf(Split(a, '\n')[0]) == Quoting
    ensures var b := Reread(k, a, indent, r); b.Closed? && |b.rest| > |r|
  {
    hide ReadBody, Split, Continuation, Reread, AdvanceAll, KindOf;
    FirstLineHasNoBreak(a);
    var args := Split(a, '\n');
    var t := AdvanceAll(0, indent) + |k| + 2;
    RereadLines(k, a, indent, r);
    ReadQuoting(args[0], Continuation(args[1..], indent + " " + Spaces(|k| + 1)) + r, t, t, "", false);
  }

  lemma RereadCutting(k: string, a: string, indent: string, r: string)
    requires AllPrintable(a) && AllBlank(indent)
    requires |Split(a, '\n')| > 1 && KindOf(Split(a, '\n')[0]) == Cutting
    ensures ReadsAs(Reread(k, a, indent, r), k, a, r) <==> KeepsCut(k, a)
  {
    hide ReadBody, Split, Continuation, Reread, AdvanceAll, KindOf, Literal, LegalLine, Subst, AfterCut, Join,
         AllPrintable, NoBlankEnds;
    FirstLineHasNoBreak(a);
    var args := Split(a, '\n');
    var t, pad := AdvanceAll(0, indent) + |k| + 2, indent + " " + Spaces(|k| + 1);
    var l, rest := args[0], args[1..];
    KindSplits(l);
    var m := l[..|l| - 1];
    assert l == m + "\\";
    var more := Continuation(rest, pad) + r;
    RereadLines(k, a, indent, r);
    ReadCutting(m, more, t, t);
    PadColumn(k, indent);
    LinesPrintable(a);
    var text := Subst(m) + "\\\n";
    ReadAfterCut(rest, pad, r, t, text);
    BadOnly(more, 0, t, true, text);
    CutIsSame(m, pad, rest);
    JoinSplit(a, '\n');
    JoinHead(args);
    assert a == m + "\\" + "\n" + Join(rest, "\n");
    assert NoBlankEnds(args, 2) <==> NoBlankEnds(rest, 1) by { EndsShiftTwo(args); }
  }

  lemma EndsShiftTwo(args: seq<string>)
    requires |args| > 1
    ensures NoBlankEnds(args, 2) <==> NoBlankEnds(args[1..], 1)
  {
    hide TrimBlanks;
    var rest := args[1..];
    assert forall j :: 0 <= j < |rest| ==> rest[j] == args[j + 1];
    if NoBlankEnds(rest, 1) {
      forall j | 2 <= j < |args| - 1
        ensures TrimBlanks(args[j]) == args[j]
      {
        assert args[j] == rest[j - 1];
      }
    }
  }

  /** The continuation padding ends in the column of the opening quote. */
  lemma PadColumn(k: string, indent: string)
    requires AllBlank(indent)
    ensures var pad := indent + " " + Spaces(|k| + 1);
            AllBlank(pad) && AdvanceAll(0, pad) == AdvanceAll(0, indent) + |k| + 2
  {
    var spaces := " " + Spaces(|k| + 1);
    assert indent + " " + Spaces(|k| + 1) == indent + spaces;
    forall i | 0 <= i < |spaces|
      ensures spaces[i] == ' '
    {
      if i > 0 { assert spaces[i] == Spaces(|k| + 1)[i - 1]; }
    }
    AdvanceConcat(0, indent, spaces);
    AdvanceSpaces(AdvanceAll(0, indent), spaces);
  }

  lemma LinesPrintable(a: string)
    requires AllPrintable(a)
    ensures var args := Split(a, '\n'); forall i :: 0 <= i < |args| ==> AllPrintable(args[i])
  {
    hide Split;
    var args := Split(a, '\n');
    SplitParts(a, '\n');
    forall i, j | 0 <= i < |args| && 0 <= j < |args[i]|
      ensures Printable(args[i][j])
    {
      assert args[i][j] in args[i];
    }
  }
}
