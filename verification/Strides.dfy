/**
 The lexer's way through a source in strides: one white character, one token or
 one comment each, and what a stride does to the tab-expanded column it keeps.
 */
module Strides {
  import opened Text
  import opened Wrappers
  import opened Lexing
  import opened Bodies

  /** Where the lexer is between two tokens: the text still to be read, and the column it keeps. */
  datatype Place = Place(rest: string, col: nat)

  /**
   On by one white character, one token or one comment; none at the end of the
   source or at a string or comment that is never closed.
   */
  function Stride(s: string, t: nat): (r: Option<Place>)
    ensures r.Some? ==> |r.value.rest| < |s|
  {
    if s == "" then None
    else if White(s[0]) then Some(Place(s[1..], Advance(t, s[0])))
    else
      var r := LexSolid(s, t);
      if r.Read? && r.token.Broken? then None else Some(Place(r.rest, r.col))
  }

  /** `n` strides on. */
  function Walk(s: string, t: nat, n: nat): (r: Option<Place>)
    ensures r.Some? ==> |r.value.rest| <= |s|
    decreases n
  {
    if n == 0 then Some(Place(s, t))
    else
      var r := Stride(s, t);
      if r == None then None else Walk(r.value.rest, r.value.col, n - 1)
  }

  /** What was read of `s` when `rest` remains. */
  function Taken(s: string, rest: string): (x: string)
    requires |rest| <= |s|
    ensures |x| == |s| - |rest|
  {
    s[..|s| - |rest|]
  }

  /** `s` starts with a text the lexer passes over without looking at its characters. */
  predicate Passes(s: string) {
    && s != ""
    && (s[0] == '\'' || (s[0] == '/' && |s| > 1 && (s[1] == '/' || s[1] == '*')))
  }

  /** The columns the lexer charges for such a text. */
  function Charge(s: string): nat
    requires Passes(s)
  {
    if s[0] == '\'' then 2 else if s[1] == '/' then 1 else 3
  }

  /** A text passed over whose characters are more than the columns charged. */
  predicate Miscounts(s: string, t: nat) {
    && Passes(s) && Stride(s, t).Some?
    && |Taken(s, Stride(s, t).value.rest)| != Charge(s)
  }

  /** None of the next `n` strides passes over such a text. */
  predicate Counts(s: string, t: nat, n: nat)
    decreases n
  {
    n > 0 && Stride(s, t).Some? ==>
      !Miscounts(s, t) && Counts(Stride(s, t).value.rest, Stride(s, t).value.col, n - 1)
  }

  // ---------------------------------------------------------------- what one stride does

  /** The body of a double-quoted string: what closes it, the column behind it, and its escapes. */
  lemma {:induction false} BodyEnds(s: string, t: nat, indent: nat, over: bool, text: string, bad: bool)
    returns (n: nat)
    requires ReadBody(s, t, indent, over, text, bad).Closed?
    ensures var b := ReadBody(s, t, indent, over, text, bad);
            && n < |s| && s[n] == '"' && b.rest == s[n + 1..]
            && b.col == AdvanceAll(t, s[..n + 1])
            && (WellEscaped(s[..n]) <==> !BreaksEscape(s[..n])) && (!b.bad ==> WellEscaped(s[..n]))
    decreases |s|
  {
    hide ReadBody, AdvanceAll, WellEscaped, BreaksEscape;
    assert s[0..] == s;
    ReadBodyStep(s, 0, t, indent, over, text, bad);
    if s[0] == '"' {
      n := 0;
      OneColumn(t, s[..1]);
      EmptyLine(0);
    } else {
      var two := s[0] == '\\';
      var w := if two then 2 else 1;
      var t1 := AdvanceAll(t, s[..w]);
      TwoColumns(t, s[..w]);
      var over1, text1, bad1 := NextBody(s, t, indent, over, text, bad);
      var m := BodyEnds(s[w..], t1, indent, over1, text1, bad1);
      n := w + m;
      Pieces(s, w, m);
      AdvanceConcat(t, s[..w], s[w..][..m + 1]);
      LongerBody(s[..w], s[w..][..m]);
      if two && !Escapable(s[1]) { BadStaysBad(s[w..], t1, indent, over1, text1); }
    }
  }

  lemma Pieces(s: string, w: nat, m: nat)
    requires w + m < |s|
    ensures s[..w + m] == s[..w] + s[w..][..m]
    ensures s[..w + m + 1] == s[..w] + s[w..][..m + 1]
    ensures s[w..][m] == s[w + m] && s[w..][m + 1..] == s[w + m + 1..]
  {
  }

  /** The arguments with which ReadBody goes on after a character or an escape. */
  lemma NextBody(s: string, t: nat, indent: nat, over: bool, text: string, bad: bool)
    returns (over1: bool, text1: string, bad1: bool)
    requires s != "" && s[0] != '"' && ReadBody(s, t, indent, over, text, bad).Closed?
    ensures s[0] == '\\' ==> |s| > 1 && bad1 == (bad || !Escapable(s[1]))
    ensures ReadBody(s, t, indent, over, text, bad)
         == if s[0] == '\\' then ReadBody(s[2..], Advance(t + 1, s[1]), indent, over1, text1, bad1)
            else ReadBody(s[1..], Advance(t, s[0]), indent, over1, text1, bad1)
  {
    hide ReadBody, TrimBlanks, Unescape, Escapable;
    assert s[0..] == s;
    ReadBodyStep(s, 0, t, indent, over, text, bad);
    var c := s[0];
    bad1 := bad;
    if c == '\n' {
      over1, text1 := false, TrimBlanks(text) + "\n";
    } else if Blank(c) && !over && Advance(t, c) <= indent {
      over1, text1 := over, text;
    } else if c == '\\' {
      over1, text1, bad1 := true, text + Unescape(s[1]), bad || !Escapable(s[1]);
    } else {
      over1, text1 := true, text + [c];
    }
  }

  lemma OneColumn(t: nat, x: string)
    requires |x| == 1
    ensures AdvanceAll(t, x) == Advance(t, x[0])
  {
    assert x[1..] == "";
  }

  lemma TwoColumns(t: nat, x: string)
    requires 1 <= |x| <= 2
    ensures AdvanceAll(t, x)
         == if |x| == 1 then Advance(t, x[0]) else Advance(Advance(t, x[0]), x[1])
  {
    OneColumn(Advance(t, x[0]), if |x| == 2 then x[1..] else x);
    assert x[1..] == "" || |x| == 2;
  }

  lemma LongerBody(a: string, b: string)
    requires (|a| == 1 && a[0] != '"' && a[0] != '\\') || (|a| == 2 && a[0] == '\\')
    ensures WellEscaped(a + b) <==> WellEscaped(b) && a != "\\\n"
    ensures BreaksEscape(a + b) <==> BreaksEscape(b) || a == "\\\n"
  {
    assert (a + b)[|a|..] == b;
  }

  // A single-quoted string or a comment takes the columns charged for it.

  /** A suffix of a suffix. */
  lemma DropTwice(s: string, a: nat, b: nat)
    requires a + b <= |s|
    ensures s[a..][b..] == s[a + b..]
    ensures |s[a..][b..]| == |s| - a - b
  {
  }

  lemma SingleStride(s: string, t: nat)
    requires s != "" && s[0] == '\'' && Stride(s, t).Some?
    ensures var p := Stride(s, t).value;
            |p.rest| + 2 <= |s| && p.rest == s[|s| - |p.rest|..] && p.col == t + 2
  {
    hide ReadBody, WordLength, AdvanceAll, Advance, IndexOf, At;
    DropTwice(s, 1, IndexOf(s[1..], "'") + 1);
  }

  lemma LineStride(s: string, t: nat)
    requires |s| > 1 && s[0] == '/' && s[1] == '/' && Stride(s, t).Some?
    ensures var p := Stride(s, t).value;
            |p.rest| + 2 <= |s| && p.rest == s[|s| - |p.rest|..] && p.col == t + 1
  {
    hide ReadBody, WordLength, AdvanceAll, Advance, IndexOf;
    assert !At(s[1..], 0, "\n") by { assert s[1..][0..][0] == '/'; }
    DropTwice(s, 1, IndexOf(s[1..], "\n"));
  }

  lemma BlockStride(s: string, t: nat)
    requires |s| > 1 && s[0] == '/' && s[1] == '*' && Stride(s, t).Some?
    ensures var p := Stride(s, t).value;
            |p.rest| + 3 <= |s| && p.rest == s[|s| - |p.rest|..] && p.col == t + 3
  {
    hide ReadBody, WordLength, AdvanceAll, Advance, IndexOf, At;
    DropTwice(s, 1, IndexOf(s[1..], "*/") + 2);
  }

  lemma PassedStride(s: string, t: nat)
    requires Passes(s) && Stride(s, t).Some?
    ensures var p := Stride(s, t).value;
            && s == Taken(s, p.rest) + p.rest
            && |Taken(s, p.rest)| >= Charge(s)
            && p.col == t + Charge(s)
  {
    hide Stride;
    if s[0] == '\'' {
      SingleStride(s, t);
    } else if s[1] == '/' {
      LineStride(s, t);
    } else {
      BlockStride(s, t);
    }
  }

  /** Any other stride counts the columns of what it reads. */
  lemma CountedStride(s: string, t: nat)
    requires !Passes(s) && Stride(s, t).Some?
    ensures var p := Stride(s, t).value;
            && s == Taken(s, p.rest) + p.rest
            && p.col == AdvanceAll(t, Taken(s, p.rest))
  {
    hide ReadBody, WordLength, AdvanceAll, IndexOf;
    var p := Stride(s, t).value;
    if White(s[0]) || s[0] in ";{}" {
      OneColumn(t, s[..1]);
      assert s == s[..1] + s[1..] && Taken(s, p.rest) == s[..1];
    } else if s[0] == '"' {
      var n := BodyEnds(s[1..], t + 1, t + 1, true, "", false);
      OneColumn(t, s[..1]);
      AdvanceConcat(t, s[..1], s[1..][..n + 1]);
      assert s[..1] + s[1..][..n + 1] == s[..n + 2] == Taken(s, p.rest);
      assert s[1..][n + 1..] == s[n + 2..];
    } else if s[0] == '+' && |s| > 1 && (s[1] == '"' || s[1] == '\'') {
      OneColumn(t, s[..1]);
      assert s == s[..1] + s[1..] && Taken(s, p.rest) == s[..1];
    } else {
      var n := WordLength(s);
      AdvanceWord(t, s[..n]);
      assert Taken(s, p.rest) == s[..n];
    }
  }

  /** A text of exactly the columns charged has no line feed and no tab. */
  lemma ExactlyCharged(s: string, t: nat)
    requires Passes(s) && Stride(s, t).Some? && !Miscounts(s, t)
    ensures Taken(s, Stride(s, t).value.rest) in ["''", "/*/"]
  {
    hide Stride;
    var p := Stride(s, t).value;
    var x := Taken(s, p.rest);
    if s[0] == '\'' {
      SingleEnds(s, t);
      assert x == [s[0], s[1]];
    } else if s[1] == '/' {
      LineStride(s, t);
    } else {
      BlockEnds(s, t);
      assert x == [s[0], s[1], s[2]];
    }
  }

  lemma SingleEnds(s: string, t: nat)
    requires s != "" && s[0] == '\'' && Stride(s, t).Some?
    ensures var n := |s| - |Stride(s, t).value.rest|; n > 1 && s[n - 1] == '\''
  {
    hide ReadBody, WordLength, AdvanceAll;
    var x := IndexOf(s[1..], "'");
    assert s[1..][x..][0] == '\'';
  }

  lemma BlockEnds(s: string, t: nat)
    requires |s| > 1 && s[0] == '/' && s[1] == '*' && Stride(s, t).Some?
    ensures var n := |s| - |Stride(s, t).value.rest|; n > 2 && s[n - 1] == '/'
  {
    hide ReadBody, WordLength, AdvanceAll;
    var x := IndexOf(s[1..], "*/");
    assert s[1..][x..][1] == '/';
  }
}
