/** When the column the lexer keeps is the one of the source. */
module Drift {
  import opened Text
  import opened Wrappers
  import opened Lexing
  import opened Strides
  import opened Columns

  /**
   After the last text that takes more columns than it was charged: the column
   is right exactly if the lexer's column there and the real one meet on the way.
   */
  lemma RightAfter(src: string, k: nat, m: nat)
    requires Walk(src, 0, k).Some?
    requires var q := Walk(src, 0, k).value; Walk(q.rest, q.col, m).Some? && Counts(q.rest, q.col, m)
    ensures var q := Walk(src, 0, k).value;
            var p := Walk(q.rest, q.col, m).value;
            && Walk(src, 0, k + m) == Some(p)
            && (Right(src, p) <==> Meets(q.col, Column(src, q), Taken(q.rest, p.rest)))
  {
    hide AdvanceAll, Walk, Counts, Meets;
    var q := Walk(src, 0, k).value;
    var p := Walk(q.rest, q.col, m).value;
    WalkOn(src, 0, k, m);
    WalkSplits(src, 0, k);
    TakenOn(src, q, m);
    CountedRun(q.rest, q.col, m);
    MeetsIsExact(q.col, Column(src, q), Taken(q.rest, p.rest));
  }

  /**
   A text passed over keeps a right column right exactly if its last line takes
   what was charged: the whole of it, or the part after its last line feed.
   */
  lemma PassedRight(src: string, q: Place)
    requires |q.rest| <= |src| && src == Taken(src, q.rest) + q.rest
    requires Passes(q.rest) && Stride(q.rest, q.col).Some?
    ensures var p := Stride(q.rest, q.col).value;
            var x := Taken(q.rest, p.rest);
            && p.col == q.col + Charge(q.rest)
            && Column(src, p) == (if '\n' in x then AdvanceAll(0, LastLine(x)) else AdvanceAll(Column(src, q), x))
            && ('\n' !in x && Right(src, q) ==>
                  p.col <= Column(src, p) && (Right(src, p) <==> x in ["''", "/*/"]))
  {
    hide AdvanceAll, Stride, Passes, Charge;
    var p := Stride(q.rest, q.col).value;
    var x := Taken(q.rest, p.rest);
    PassedStride(q.rest, q.col);
    assert Walk(q.rest, q.col, 1) == Some(p) by { assert Walk(p.rest, p.col, 0) == Some(p); }
    TakenOn(src, q, 1);
    if '\n' in x {
      AdvanceLastLine(Column(src, q), x);
    } else {
      AdvanceAtLeast(Column(src, q), x);
      if !Miscounts(q.rest, q.col) {
        ExactlyCharged(q.rest, q.col);
        AdvanceWord(q.col, x);
      } else {
        LongerThanCharged(q.rest, x);
      }
    }
  }

  lemma LongerThanCharged(s: string, x: string)
    requires Passes(s) && x <= s && |x| > Charge(s)
    ensures x !in ["''", "/*/"]
  {
  }

  /** The columns of the last lines decide, of the source read and of what the lexer has seen of it. */
  lemma RightByWidth(src: string, n: nat)
    requires Walk(src, 0, n).Some?
    ensures var p := Walk(src, 0, n).value;
            var seen, line := LastLine(Seen(src, 0, n)), LastLine(Taken(src, p.rest));
            && (Right(src, p) <==> AdvanceAll(0, seen) == AdvanceAll(0, line))
            && ('\t' !in seen && '\t' !in line ==> (Right(src, p) <==> |seen| == |line|))
  {
    hide AdvanceAll, Walk, Seen, LastLine;
    var p := Walk(src, 0, n).value;
    ColumnOfSeen(src, 0, n);
    ColumnOfLine(Seen(src, 0, n));
    ColumnOfLine(Taken(src, p.rest));
  }

  lemma ColumnOfLine(x: string)
    ensures AdvanceAll(0, x) == AdvanceAll(0, LastLine(x))
    ensures '\t' !in LastLine(x) ==> AdvanceAll(0, x) == |LastLine(x)|
  {
    hide AdvanceAll;
    if '\n' in x { AdvanceLastLine(0, x); }
    LineOnly(x);
    if '\t' !in LastLine(x) { AdvanceWord(0, LastLine(x)); }
  }

  /**
   Along one line without tabs, from a right column: the column stays right
   exactly if nothing passed over takes more columns than it is charged.
   */
  lemma OneLine(src: string, k: nat, m: nat)
    requires Walk(src, 0, k + m).Some? && Walk(src, 0, k).Some? && Right(src, Walk(src, 0, k).value)
    requires var q, p := Walk(src, 0, k).value, Walk(src, 0, k + m).value;
             |p.rest| <= |q.rest| && '\n' !in Taken(q.rest, p.rest) && '\t' !in Taken(q.rest, p.rest)
    ensures var q, p := Walk(src, 0, k).value, Walk(src, 0, k + m).value;
            && p.col <= Column(src, p)
            && (Right(src, p) <==> Counts(q.rest, q.col, m))
  {
    hide AdvanceAll, Walk, Counts;
    var q, p := Walk(src, 0, k).value, Walk(src, 0, k + m).value;
    WalkOn(src, 0, k, m);
    WalkSplits(src, 0, k);
    TakenOn(src, q, m);
    OneLineRun(q.rest, q.col, m);
    AdvanceWord(q.col, Taken(q.rest, p.rest));
  }

  lemma {:induction false} OneLineRun(s: string, t: nat, n: nat)
    requires Walk(s, t, n).Some?
    requires var x := Taken(s, Walk(s, t, n).value.rest); '\n' !in x && '\t' !in x
    ensures var p := Walk(s, t, n).value;
            && p.col <= t + |Taken(s, p.rest)|
            && (p.col == t + |Taken(s, p.rest)| <==> Counts(s, t, n))
    decreases n
  {
    hide Stride, Passes, Charge;
    if n > 0 {
      var p := Stride(s, t).value;
      var r := Walk(s, t, n).value.rest;
      StrideSplits(s, t);
      WalkSplits(p.rest, p.col, n - 1);
      TakenTwice(s, p.rest, r);
      assert forall c :: c in Taken(s, p.rest) || c in Taken(p.rest, r) ==> c in Taken(s, r);
      OneLineRun(p.rest, p.col, n - 1);
      if Passes(s) {
        PassedStride(s, t);
      } else {
        CountedStride(s, t);
        AdvanceWord(t, Taken(s, p.rest));
      }
    }
  }

  /** None of the next `n` strides passes over a line feed. */
  predicate PassesNoLine(s: string, t: nat, n: nat)
    decreases n
  {
    n > 0 && Stride(s, t).Some? ==>
      var p := Stride(s, t).value;
      && (Passes(s) ==> '\n' !in Taken(s, p.rest))
      && PassesNoLine(p.rest, p.col, n - 1)
  }

  /** Only a line feed passed over can make the column too large. */
  lemma {:induction false} NeverTooLarge(s: string, t: nat, u: nat, n: nat)
    requires Walk(s, t, n).Some? && PassesNoLine(s, t, n) && t <= u
    ensures Walk(s, t, n).value.col <= AdvanceAll(u, Taken(s, Walk(s, t, n).value.rest))
    decreases n
  {
    hide Stride, Passes, Charge, AdvanceAll;
    if n == 0 {
      NoColumns(u);
    } else {
      var p := Stride(s, t).value;
      var r := Walk(s, t, n).value.rest;
      var x := Taken(s, p.rest);
      if Passes(s) {
        PassedStride(s, t);
        AdvanceAtLeast(u, x);
      } else {
        CountedStride(s, t);
        AdvanceMonotone(t, u, x);
      }
      NeverTooLarge(p.rest, p.col, AdvanceAll(u, x), n - 1);
      StrideSplits(s, t);
      WalkSplits(p.rest, p.col, n - 1);
      TakenTwice(s, p.rest, r);
      AdvanceConcat(u, x, Taken(p.rest, r));
    }
  }

}
