/**
 When stripping to tab stops, as the lexer does, leaves the same of an
 indentation as stripping at eight columns a tab, as section 6.1.3 of RFC 7950
 has it; and three strings that the lexer does not read by the rule.
 */
module TabStops {
  import opened Text
  import opened Lexing
  import opened Bodies
  import opened StringRule

  /** The columns of blanks at eight a tab. */
  function Width(b: string): nat {
    if b == "" then 0 else (if b[0] == '\t' then 8 else 1) + Width(b[1..])
  }

  /**
   At eight columns a tab the blanks reach the limit just before the character
   at `j`, and going on to its tab stop passes the limit too.
   */
  predicate StopsAt(b: string, t: nat, n: nat, limit: nat, j: nat) {
    j < |b| && Width(b[..j]) == n && Advance(AdvanceAll(t, b[..j]), b[j]) > limit
  }

  /** The blanks `b`, read from column `t`: all fit within the next `n` columns, or both counts stop at one of them. */
  ghost predicate SameStop(b: string, t: nat, n: nat, limit: nat) {
    Width(b) <= n || exists j: nat :: StopsAt(b, t, n, limit, j)
  }

  lemma {:induction false} DeindentShorter(b: string, t: nat, limit: nat)
    ensures |Deindent(b, t, limit)| <= |b|
    decreases |b|
  {
    if b != "" && Blank(b[0]) && Advance(t, b[0]) <= limit { DeindentShorter(b[1..], Advance(t, b[0]), limit); }
  }

  /** Past the first blank the stops are those of the rest. */
  lemma StopShifts(b: string, t: nat, n: nat, limit: nat, j: nat)
    requires b != "" && Width(b[..1]) <= n
    ensures StopsAt(b, t, n, limit, j + 1)
       <==> StopsAt(b[1..], Advance(t, b[0]), n - Width(b[..1]), limit, j)
  {
    if j + 1 < |b| {
      var x := b[..j + 1];
      assert x[0] == b[0] && x[1..] == b[1..][..j] && b[..1][1..] == "";
    }
  }

  /** The first blank already takes columns. */
  lemma WidthGrows(b: string, j: nat)
    requires 0 < j <= |b|
    ensures Width(b[..j]) >= Width(b[..1]) >= 1
    ensures b[0] == '\t' ==> Width(b[..1]) == 8
  {
    assert b[..j][0] == b[0] && b[..1][1..] == "";
  }

  lemma SameStopShifts(b: string, t: nat, n: nat, limit: nat)
    requires b != "" && Width(b[..1]) <= n
    ensures SameStop(b, t, n, limit) <==> SameStop(b[1..], Advance(t, b[0]), n - Width(b[..1]), limit)
  {
    hide StopsAt;
    var t1, n1 := Advance(t, b[0]), n - Width(b[..1]);
    assert b[..1][1..] == "";
    if j: nat :| StopsAt(b, t, n, limit, j) {
      NotAtFirst(b, t, n, limit);
      StopShifts(b, t, n, limit, j - 1);
    }
    if j: nat :| StopsAt(b[1..], t1, n1, limit, j) {
      StopShifts(b, t, n, limit, j);
    }
  }

  lemma NotAtFirst(b: string, t: nat, n: nat, limit: nat)
    requires b != "" && Width(b[..1]) <= n
    ensures !StopsAt(b, t, n, limit, 0)
  {
    WidthGrows(b, 1);
    assert b[..0] == "";
  }

  /** At the limit, or with a tab across it, there is only the first blank to look at. */
  lemma NoStopPast(b: string, t: nat, n: nat, limit: nat)
    requires b != "" && n < Width(b[..1])
    ensures SameStop(b, t, n, limit) <==> n == 0 && Advance(t, b[0]) > limit
  {
    assert b[..0] == "" && AdvanceAll(t, b[..0]) == t && b[..|b|] == b;
    WidthGrows(b, |b|);
    if n == 0 && Advance(t, b[0]) > limit { assert StopsAt(b, t, n, limit, 0); }
    if j: nat :| StopsAt(b, t, n, limit, j) {
      if j > 0 { WidthGrows(b, j); }
    }
  }

  /** The two strippings leave the same exactly if they stop at the same character. */
  lemma {:induction false} SameStopIsExact(b: string, t: nat, n: nat, limit: nat)
    requires AllBlank(b) && t + n <= limit
    ensures Deindent(b, t, limit) == Stripped(b, n) <==> SameStop(b, t, n, limit)
    decreases |b|
  {
    hide SameStop, StopsAt;
    if b == "" {
      assert SameStop("", t, n, limit) by { NoneToStop(t, n, limit); }
    } else {
      assert b[..1] == [b[0]] && [b[0]][1..] == "";
      var w := Width([b[0]]);
      if w <= n {
        SameStopShifts(b, t, n, limit);
        SameStopIsExact(b[1..], Advance(t, b[0]), n - w, limit);
      } else {
        NoStopPast(b, t, n, limit);
        DeindentShorter(b[1..], Advance(t, b[0]), limit);
        assert b == [b[0]] + b[1..];
      }
    }
  }

  lemma NoneToStop(t: nat, n: nat, limit: nat)
    ensures SameStop("", t, n, limit)
  {
  }

  /** So a later line is left alike by the lexer and the rule, for one limit, exactly under this condition. */
  lemma LeadsAgree(b: string, i: nat, indent: nat)
    requires AllBlank(b)
    ensures LexerLead(b, i, indent) == RuleLead(b, i, indent) <==> i == 0 || SameStop(b, 0, indent, indent)
  {
    if i > 0 { SameStopIsExact(b, 0, indent, indent); }
  }

  /** Every tab within the limit starts at a stop and ends within the limit. */
  predicate Aligned(b: string, w: nat, limit: nat) {
    b == "" || w >= limit
    || (if b[0] == '\t' then w % 8 == 0 && w + 8 <= limit && Aligned(b[1..], w + 8, limit)
        else Aligned(b[1..], w + 1, limit))
  }

  /** Aligned tabs are stripped by the rule; spaces always are. */
  lemma {:induction false} AlignedAgrees(b: string, w: nat, limit: nat)
    requires AllBlank(b) && w <= limit && Aligned(b, w, limit)
    ensures Deindent(b, w, limit) == Stripped(b, limit - w)
    decreases |b|
  {
    if b != "" && w < limit {
      AlignedAgrees(b[1..], if b[0] == '\t' then w + 8 else w + 1, limit);
    }
  }

  // ---------------------------------------------------------------- three strings

  lemma TwoLines(first: string, second: string, indent: nat)
    ensures LexerText([first, second], indent) == TrimBlanks(Subst(first)) + "\n" + Subst(Deindent(second, 0, indent))
    ensures RuleValue([first, second], indent) == Subst(Ended(first)) + "\n" + Subst(Stripped(second, indent))
  {
    hide Subst, TrimBlanks, Deindent, Stripped, Ended, Join, LexerText;
    var lines := [first, second];
    LexerTextIsLines(lines, indent);
    var a, b := LexerLines(lines, indent), RuleLines(lines, indent);
    JoinHead(a);
    JoinHead(b);
    assert a[1..] == [a[1]] && b[1..] == [b[1]];
    JoinOne(a[1], "\n");
    JoinOne(b[1], "\n");
  }

  lemma Plain1(c: char)
    requires c != '\\'
    ensures Subst([c]) == [c]
  {
    assert [c][1..] == "";
  }

  /** A tab behind a space: the lexer goes to the next stop, the rule eight columns on. */
  lemma TabOffStop()
    ensures LexerText(["", " \t x"], 9) == "\nx" && RuleValue(["", " \t x"], 9) == "\n x"
  {
    TwoLines("", " \t x", 9);
    EmptyLine(0);
    Plain1('x');
    assert " \t x"[1..] == "\t x" && "\t x"[1..] == " x" && " x"[1..] == "x";
    assert Deindent("x", 9, 9) == "x" && Deindent(" x", 8, 9) == "x" && Deindent("\t x", 1, 9) == "x";
    assert Stripped(" x", 0) == " x" && Stripped("\t x", 8) == " x";
    assert Subst(" x") == " " + Subst("x");
    assert Ended("") == "";
  }

  /** A tab across the column of the quote: the lexer keeps it, the rule leaves its last five columns as spaces. */
  lemma TabAcross()
    ensures LexerText(["a", "\tb"], 3) == "a\n\tb" && RuleValue(["a", "\tb"], 3) == "a\n     b"
  {
    TwoLines("a", "\tb", 3);
    Plain1('a');
    Plain1('b');
    assert "\tb"[1..] == "b" && Spaces(5) == "     ";
    assert Deindent("\tb", 0, 3) == "\tb" && Stripped("\tb", 3) == Spaces(5) + "b";
    SubstLead(Spaces(5), "b");
    assert Subst("\tb") == "\t" + Subst("b");
    assert Ended("a") == "a" && TrimBlanks("a") == "a";
  }

  /** Blanks before a CRLF: the lexer keeps them. */
  lemma BlankBeforeReturn(indent: nat)
    ensures LexerText(["a \r", "b"], indent) == "a \r\nb" && RuleValue(["a \r", "b"], indent) == "a\r\nb"
  {
    TwoLines("a \r", "b", indent);
    Plain1('b');
    TailAlone(" \r");
    TailAlone("\r");
    assert "a \r"[1..] == " \r" && "a\r"[1..] == "\r";
    assert Subst("a \r") == "a" + " \r" && Subst("a\r") == "a" + "\r";
    assert "a \r"[..2] == "a " && TrimBlanks("a ") == "a" by { assert "a "[..1] == "a"; }
    assert Ended("a \r") == "a" + "\r";
    assert Deindent("b", 0, indent) == "b" && Stripped("b", indent) == "b";
  }
}
