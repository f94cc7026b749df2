/**
 The tab-expanded column the lexer keeps, against the column its place has in
 the source. Only the column at a double quote matters: the later lines of the
 string are stripped up to it.
 */
module Columns {
  import opened Text
  import opened Wrappers
  import opened Lexing
  import opened Strides

  /** The column of a place in the source. */
  function Column(src: string, p: Place): nat
    requires |p.rest| <= |src|
  {
    AdvanceAll(0, Taken(src, p.rest))
  }

  /** The source with every text passed over replaced by a blank for each column charged. */
  function Seen(s: string, t: nat, n: nat): string
    decreases n
  {
    if n == 0 || Stride(s, t) == None then ""
    else
      var p := Stride(s, t).value;
      (if Passes(s) then Spaces(Charge(s)) else Taken(s, p.rest)) + Seen(p.rest, p.col, n - 1)
  }

  // ---------------------------------------------------------------- whole runs

  lemma StrideSplits(s: string, t: nat)
    requires Stride(s, t).Some?
    ensures s == Taken(s, Stride(s, t).value.rest) + Stride(s, t).value.rest
  {
    hide Stride;
    if Passes(s) { PassedStride(s, t); } else { CountedStride(s, t); }
  }

  /** The source is what was read so far and what is left. */
  lemma {:induction false} WalkSplits(s: string, t: nat, n: nat)
    requires Walk(s, t, n).Some?
    ensures s == Taken(s, Walk(s, t, n).value.rest) + Walk(s, t, n).value.rest
    decreases n
  {
    hide Stride;
    if n > 0 {
      StrideSplits(s, t);
      var p := Stride(s, t).value;
      WalkSplits(p.rest, p.col, n - 1);
      TakenTwice(s, p.rest, Walk(s, t, n).value.rest);
    }
  }

  lemma TakenTwice(s: string, r1: string, r2: string)
    requires |r2| <= |r1| <= |s|
    requires s == Taken(s, r1) + r1 && r1 == Taken(r1, r2) + r2
    ensures Taken(s, r2) == Taken(s, r1) + Taken(r1, r2)
    ensures s == Taken(s, r2) + r2
  {
    assert s == Taken(s, r1) + Taken(r1, r2) + r2;
  }

  /** A walk of `a + b` strides is one of `a` and then one of `b`. */
  lemma {:induction false} WalkOn(s: string, t: nat, a: nat, b: nat)
    requires Walk(s, t, a).Some?
    ensures var q := Walk(s, t, a).value; Walk(s, t, a + b) == Walk(q.rest, q.col, b)
    decreases a
  {
    hide Stride;
    if a > 0 {
      var p := Stride(s, t).value;
      WalkOn(p.rest, p.col, a - 1, b);
    }
  }

  /** The tokens from a place on are the last tokens of the source. */
  lemma {:induction false} WalkTokens(s: string, t: nat, n: nat) returns (before: seq<Token>)
    requires Walk(s, t, n).Some?
    ensures Lex(s, t) == before + Lex(Walk(s, t, n).value.rest, Walk(s, t, n).value.col)
    decreases n
  {
    hide Lex, LexSolid, Advance;
    if n == 0 {
      before := [];
    } else {
      var first := StrideTokens(s, t);
      var p := Stride(s, t).value;
      var more := WalkTokens(p.rest, p.col, n - 1);
      before := first + more;
    }
  }

  lemma StrideTokens(s: string, t: nat) returns (first: seq<Token>)
    requires Stride(s, t).Some?
    ensures Lex(s, t) == first + Lex(Stride(s, t).value.rest, Stride(s, t).value.col)
    ensures |first| == if !White(s[0]) && LexSolid(s, t).Read? then 1 else 0
  {
    hide LexSolid;
    first := [];
    if !White(s[0]) {
      var r := LexSolid(s, t);
      if r.Read? { first := [r.token]; }
    }
  }

  /** Each token is read in one stride from some place of the walk. */
  lemma {:induction false} TokenPlace(s: string, t: nat, k: nat) returns (n: nat)
    requires k < |Lex(s, t)|
    ensures Walk(s, t, n).Some?
    ensures var p := Walk(s, t, n).value;
            && Lex(p.rest, p.col) == Lex(s, t)[k..]
            && p.rest != "" && !White(p.rest[0])
            && LexSolid(p.rest, p.col).Read? && LexSolid(p.rest, p.col).token == Lex(s, t)[k]
    decreases |s|
  {
    hide LexSolid, Advance, Lex;
    FirstToken(s, t);
    if !White(s[0]) && LexSolid(s, t).Read? && k == 0 {
      n := 0;
    } else {
      var p := Stride(s, t).value;
      var first := StrideTokens(s, t);
      var m := TokenPlace(p.rest, p.col, k - |first|);
      n := m + 1;
      assert Lex(s, t)[k..] == Lex(p.rest, p.col)[k - |first|..];
    }
  }

  lemma FirstToken(s: string, t: nat)
    requires Lex(s, t) != []
    ensures s != ""
    ensures Stride(s, t) == None ==> |Lex(s, t)| == 1
    ensures !White(s[0]) && LexSolid(s, t).Read? ==> Lex(s, t)[0] == LexSolid(s, t).token
    ensures Stride(s, t) == None ==> !White(s[0]) && LexSolid(s, t).Read?
  {
    hide LexSolid, Advance;
  }

  /** The lexer's column is that of the text it has seen. */
  lemma {:induction false} ColumnOfSeen(s: string, t: nat, n: nat)
    requires Walk(s, t, n).Some?
    ensures Walk(s, t, n).value.col == AdvanceAll(t, Seen(s, t, n))
    decreases n
  {
    hide Stride, Passes, Charge, AdvanceAll;
    if n == 0 {
      NoColumns(t);
    } else {
      var p := Stride(s, t).value;
      ColumnOfSeen(p.rest, p.col, n - 1);
      if Passes(s) {
        PassedStride(s, t);
        AdvanceSpaces(t, Spaces(Charge(s)));
        AdvanceConcat(t, Spaces(Charge(s)), Seen(p.rest, p.col, n - 1));
      } else {
        CountedStride(s, t);
        AdvanceConcat(t, Taken(s, p.rest), Seen(p.rest, p.col, n - 1));
      }
    }
  }

  lemma NoColumns(t: nat)
    ensures AdvanceAll(t, "") == t
  {
  }

  /** Over strides that pass over nothing but `''` and the comment of three characters, the column is right. */
  lemma {:induction false} CountedRun(s: string, t: nat, n: nat)
    requires Walk(s, t, n).Some? && Counts(s, t, n)
    ensures Walk(s, t, n).value.col == AdvanceAll(t, Taken(s, Walk(s, t, n).value.rest))
    decreases n
  {
    hide Stride, Passes, Charge, AdvanceAll, Miscounts;
    if n == 0 {
      NoColumns(t);
    } else {
      var p := Stride(s, t).value;
      var r := Walk(s, t, n).value.rest;
      CountedRun(p.rest, p.col, n - 1);
      RightStride(s, t);
      WalkSplits(p.rest, p.col, n - 1);
      StrideSplits(s, t);
      TakenTwice(s, p.rest, r);
      AdvanceConcat(t, Taken(s, p.rest), Taken(p.rest, r));
    }
  }

  lemma RightStride(s: string, t: nat)
    requires Stride(s, t).Some? && !Miscounts(s, t)
    ensures Stride(s, t).value.col == AdvanceAll(t, Taken(s, Stride(s, t).value.rest))
  {
    hide Stride, AdvanceAll;
    if Passes(s) {
      PassedStride(s, t);
      ExactlyCharged(s, t);
      AdvanceWord(t, Taken(s, Stride(s, t).value.rest));
    } else {
      CountedStride(s, t);
    }
  }

  // ---------------------------------------------------------------- when the column is right

  /** The lexer's column at `p` is that of the source. */
  predicate Right(src: string, p: Place)
    requires |p.rest| <= |src|
  {
    p.col == Column(src, p)
  }

  /**
   Reading `x` from columns `t` and `u` ends at one column: they are the same, a
   line feed resets both, or the first tab takes both to the same stop.
   */
  predicate Meets(t: nat, u: nat, x: string) {
    || t == u
    || '\n' in x
    || (var j := IndexOf(x, "\t"); j >= 0 && (t + j) / 8 == (u + j) / 8)
  }

  lemma {:induction false} MeetsIsExact(t: nat, u: nat, x: string)
    ensures AdvanceAll(t, x) == AdvanceAll(u, x) <==> Meets(t, u, x)
    decreases |x|
  {
    hide IndexOf, Meets;
    if x == "" {
      MeetsNothing(t, u);
    } else if x[0] == '\n' {
      MeetsLine(t, u, x);
    } else if x[0] == '\t' {
      MeetsTab(t, u, x);
    } else {
      MeetsIsExact(t + 1, u + 1, x[1..]);
      MeetsChar(t, u, x);
    }
  }

  lemma MeetsNothing(t: nat, u: nat)
    ensures Meets(t, u, "") <==> t == u
  {
  }

  lemma MeetsLine(t: nat, u: nat, x: string)
    requires x != "" && x[0] == '\n'
    ensures Meets(t, u, x)
  {
  }

  lemma MeetsTab(t: nat, u: nat, x: string)
    requires x != "" && x[0] == '\t'
    ensures AdvanceAll(t, x) == AdvanceAll(u, x) <==> Meets(t, u, x)
  {
    assert x == [x[0]] + x[1..];
    assert IndexOf(x, "\t") == 0;
    var t1, u1 := Advance(t, x[0]), Advance(u, x[0]);
    if t1 != u1 {
      Apart(t1, u1, x[1..]);
    }
  }

  lemma MeetsChar(t: nat, u: nat, x: string)
    requires x != "" && x[0] != '\t' && x[0] != '\n'
    ensures Meets(t, u, x) <==> Meets(t + 1, u + 1, x[1..])
  {
    hide IndexOf;
    assert x == [x[0]] + x[1..];
    FirstTab(x);
  }

  lemma FirstTab(x: string)
    requires x != "" && x[0] != '\t'
    ensures IndexOf(x, "\t") == if IndexOf(x[1..], "\t") < 0 then -1 else IndexOf(x[1..], "\t") + 1
  {
  }

  /** Tab stops that differ stay apart up to the next line feed. */
  lemma {:induction false} Apart(t: nat, u: nat, x: string)
    requires t % 8 == u % 8 && t != u
    ensures AdvanceAll(t, x) == AdvanceAll(u, x) <==> '\n' in x
    decreases |x|
  {
    hide Advance;
    if x != "" {
      assert x == [x[0]] + x[1..];
      ApartStep(t, u, x[0]);
      if x[0] != '\n' {
        Apart(Advance(t, x[0]), Advance(u, x[0]), x[1..]);
      }
    }
  }

  lemma ApartStep(t: nat, u: nat, c: char)
    requires t % 8 == u % 8 && t != u
    ensures c == '\n' ==> Advance(t, c) == Advance(u, c)
    ensures c != '\n' ==> Advance(t, c) % 8 == Advance(u, c) % 8 && Advance(t, c) != Advance(u, c)
  {
    assert t / 8 != u / 8;
  }

  /** The source up to a place `m` strides after `q`. */
  lemma TakenOn(src: string, q: Place, m: nat)
    requires |q.rest| <= |src| && src == Taken(src, q.rest) + q.rest
    requires Walk(q.rest, q.col, m).Some?
    ensures var p := Walk(q.rest, q.col, m).value;
            && src == Taken(src, p.rest) + p.rest
            && Column(src, p) == AdvanceAll(Column(src, q), Taken(q.rest, p.rest))
  {
    hide AdvanceAll, Walk;
    var p := Walk(q.rest, q.col, m).value;
    WalkSplits(q.rest, q.col, m);
    TakenTwice(src, q.rest, p.rest);
    AdvanceConcat(0, Taken(src, q.rest), Taken(q.rest, p.rest));
  }
}
