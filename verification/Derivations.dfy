/**
 What a type statement makes of the type it is based on (Type.resolve of
 pkg/yang/types.go): when it is accepted, and which values are left.
 */
module Derivations {
  import opened Text
  import opened Numbers
  import opened Ranges
  import opened RangeText
  import opened RangeRoundTrip
  import opened Restrictions
  import opened Types
  import opened Wrappers

  function Digits(text: Option<string>): Types.Statement {
    Types.Statement(text, None, None)
  }

  function RangeOnly(text: string): Types.Statement {
    Types.Statement(None, Some(text), None)
  }

  function LengthOnly(text: string): Types.Statement {
    Types.Statement(None, None, Some(text))
  }

  /** Reading the number of fraction digits wraps in 64 bits. */
  function Wrapped(v: int): int {
    if v < -TWO_63 then v + TWO_64 else v
  }

  /**
   A decimal64 has the fraction digits its statement gives, from 1 to 18, or
   those of a number below the smallest int64 that wraps to one of these; its
   values are all multiples of its quantum that 64 signed bits hold.
   */
  lemma DigitsDecide(y: YangType, n: Number)
    requires y.Kind == Decimal64 && Builtin(y) && n.FractionDigits == 0
    ensures var d := Derive(y, Digits(Some(NumberString(n))), true);
            && (d.ok <==> 1 <= Wrapped(Signed(n)) <= 18)
            && (d.ok ==>
                  && d.y.FractionDigits == Wrapped(Signed(n)) && d.y.Kind == Decimal64 && d.y.Length == y.Length
                  && Uniform(d.y.Range, d.y.FractionDigits)
                  && forall v :: Member(v, d.y.Range) <==> -TWO_63 <= v < TWO_63)
  {
    hide ParseInt, NumberString;
    IntegerRoundTrip(n);
    var d := Derive(y, Digits(Some(NumberString(n))), true);
    if d.ok {
      var r := d.y.Range;
      assert r[0].Min.Negative && Signed(r[0].Min) == -TWO_63;
      forall v ensures Member(v, r) <==> -TWO_63 <= v < TWO_63 {
        assert In(v, r[0]) <==> -TWO_63 <= v < TWO_63;
      }
    }
  }

  /** So a negative number of fraction digits is accepted as one. */
  lemma NegativeDigits(y: YangType)
    requires y.Kind == Decimal64 && Builtin(y)
    ensures var d := Derive(y, Digits(Some(NumberString(Number(TWO_64 - 1, 0, true)))), true);
            d.ok && d.y.FractionDigits == 1
  {
    hide Derive, NumberString, Builtin, Member;
    DigitsDecide(y, Number(TWO_64 - 1, 0, true));
  }

  /** A type statement that names decimal64 itself must give them, and no other may. */
  lemma DigitsOnlyThere(y: YangType, s: Types.Statement, direct: bool)
    requires direct ==> Builtin(y)
    ensures Derive(y, s, direct).ok ==> (s.fractionDigits.Some? <==> y.Kind == Decimal64 && direct)
  {
    hide ParseChildRanges, ParseInt;
  }

  /** Digits, range and length work one after the other. */
  lemma DeriveInSteps(y: YangType, s: Types.Statement, direct: bool)
    requires TypeOk(y) && (direct ==> Builtin(y))
    ensures var d := Derive(y, s, direct);
            var a := Derive(y, Digits(s.fractionDigits), direct);
            var b := if s.range == None then Resolved(a.y, true) else Derive(a.y, RangeOnly(s.range.value), false);
            var c := if s.length == None then Resolved(b.y, true) else Derive(b.y, LengthOnly(s.length.value), false);
            && (d.ok <==> a.ok && b.ok && c.ok)
            && (d.ok ==> d.y == c.y)
  {
    hide ParseChildRanges, ParseInt, RangesEqual, Uniform, Coalesced, LengthParent;
  }

  /** A range statement is accepted exactly if its bounds stand for values of the base, and leaves just these. */
  lemma RangeDecides(y: YangType, parts: seq<Part>, r: YangRange)
    requires var decimal := y.FractionDigits != 0;
             && TypeOk(y) && Coalesced(y.Range) && AllValid(y.Range)
             && parts != [] && AllSpelled(parts, decimal) && AllStand(parts, y.Range, decimal, y.FractionDigits, r)
    ensures var d := Derive(y, RangeOnly(RestrictionText(parts)), false);
            && (d.ok <==>
                  && AllValid(r)
                  && (y.Range == [] || (Subset(r, y.Range) && !ZeroClash(y.Range, CoalesceSpec(Sort(r)))))
                  && !StartsBelowFirst(CoalesceSpec(Sort(r))))
            && (d.ok ==> SameValues(d.y.Range, r))
            && (!d.ok ==> d.y == y)
            && d.y == y.(Range := d.y.Range)
  {
    hide ParseChildRanges, RestrictionText, AllStand, AllSpelled, ZeroClash, StartsBelowFirst, Subset, Member;
    hide RangesEqual, Uniform, AllValid;
    var decimal, text := y.FractionDigits != 0, RestrictionText(parts);
    RestrictionReads(y.Range, parts, r, decimal, y.FractionDigits);
    var yr := ParseChildRanges(y.Range, text, decimal, y.FractionDigits);
    if yr.Ok? {
      RestrictionNarrows(y.Range, text, decimal, y.FractionDigits);
      if RangesEqual(yr.value, y.Range) { RangesEqualSame(yr.value, y.Range, y.FractionDigits); }
    }
  }

  /** The lengths a type allows: any of 64 bits as long as nothing was said of them. */
  ghost predicate Allows(y: YangType, v: int) {
    if y.Length == [] then 0 <= v < TWO_64 else Member(v, y.Length)
  }

  /** A length statement is accepted exactly if its bounds stand for lengths the base allows, and leaves just these. */
  lemma LengthDecides(y: YangType, parts: seq<Part>, r: YangRange)
    requires TypeOk(y) && Coalesced(y.Length) && AllValid(y.Length)
    requires forall i :: 0 <= i < |y.Length| ==> !y.Length[i].Min.Negative && !y.Length[i].Max.Negative
    requires parts != [] && AllSpelled(parts, false) && AllStand(parts, LengthParent(y), false, 0, r)
    ensures forall v :: Member(v, LengthParent(y)) <==> Allows(y, v)
    ensures var d := Derive(y, LengthOnly(RestrictionText(parts)), false);
            && (d.ok <==>
                  && AllValid(r)
                  && (forall v :: Member(v, r) ==> Allows(y, v))
                  && !ZeroClash(LengthParent(y), CoalesceSpec(Sort(r)))
                  && !StartsBelowFirst(CoalesceSpec(Sort(r))))
            && (d.ok ==> forall v :: Allows(d.y, v) <==> Member(v, r))
            && (!d.ok ==> d.y == y)
            && d.y == y.(Length := d.y.Length)
  {
    hide ParseChildRanges, RestrictionText, AllStand, AllSpelled, ZeroClash, StartsBelowFirst, Member, Derive;
    hide RangesEqual, Uniform, AllValid, TypeOk, LengthParent, Coalesced;
    var p, text := LengthParent(y), RestrictionText(parts);
    LengthParentIs(y);
    RestrictionReads(p, parts, r, false, 0);
    LengthStep(y, text);
    if ParseChildRanges(p, text, false, 0).Ok? {
      AcceptedOrdered(r, 0);
      NoNegativeLength(p, CoalesceSpec(Sort(r)));
    }
  }

  lemma LengthStep(y: YangType, text: string)
    requires TypeOk(y)
    ensures var yr, d := ParseChildRanges(LengthParent(y), text, false, 0), Derive(y, LengthOnly(text), false);
            && (yr.Error? ==> d == Resolved(y, false))
            && (yr.Ok? ==> yr.value != [] && d.y == y.(Length := yr.value))
            && (yr.Ok? && (forall i :: 0 <= i < |yr.value| ==> !yr.value[i].Min.Negative) ==> d.ok)
  {
    hide ParseChildRanges, RangesEqual, Uniform, Coalesced;
    var yr := ParseChildRanges(LengthParent(y), text, false, 0);
    if yr.Ok? {
      LengthParentOk(y);
      RestrictionNarrows(LengthParent(y), text, false, 0);
      ParsedNotEmpty(LengthParent(y), text, false, 0);
      if RangesEqual(yr.value, y.Length) { RangesEqualSame(yr.value, y.Length, 0); }
    }
  }

  lemma AcceptedOrdered(r: YangRange, fd: Digits)
    requires Uniform(r, fd) && AllValid(r)
    ensures forall i :: 0 <= i < |CoalesceSpec(Sort(r))| ==>
              Signed(CoalesceSpec(Sort(r))[i].Min) <= Signed(CoalesceSpec(Sort(r))[i].Max)
  {
    hide Sort, CoalesceSpec, IsSorted, AllValid, Uniform;
    SortSorts(r, fd);
    SameMultisetMembers(r, Sort(r));
    CoalesceOrdered(Sort(r), fd);
  }

  /** Below lengths that are not negative nothing negative is accepted, nor a negative zero. */
  lemma NoNegativeLength(p: YangRange, q: YangRange)
    requires forall j :: 0 <= j < |p| ==> !p[j].Min.Negative && !p[j].Max.Negative
    requires Subset(q, p) && !ZeroClash(p, q)
    requires forall i :: 0 <= i < |q| ==> Signed(q[i].Min) <= Signed(q[i].Max)
    ensures forall i :: 0 <= i < |q| ==> !q[i].Min.Negative
  {
    forall i | 0 <= i < |q|
      ensures !q[i].Min.Negative
    {
      var v := Signed(q[i].Min);
      assert In(v, q[i]) && Member(v, q) && Member(v, p);
      var j :| 0 <= j < |p| && In(v, p[j]);
      assert !ZeroClashAt(p[j], q[i]);
    }
  }

  lemma LengthParentIs(y: YangType)
    requires TypeOk(y) && Coalesced(y.Length) && AllValid(y.Length)
    ensures var p := LengthParent(y);
            && p != [] && Uniform(p, 0) && Coalesced(p) && AllValid(p)
            && ((forall i :: 0 <= i < |y.Length| ==> !y.Length[i].Min.Negative && !y.Length[i].Max.Negative)
                ==> forall i :: 0 <= i < |p| ==> !p[i].Min.Negative && !p[i].Max.Negative)
    ensures forall v :: Member(v, LengthParent(y)) <==> Allows(y, v)
  {
    hide Numbers.Less;
    if y.Length == [] {
      var p := UINT64_RANGE;
      LessIsKeyOrder(p[0].Max, p[0].Min);
      forall v ensures Member(v, p) <==> 0 <= v < TWO_64 {
        assert In(v, p[0]) <==> 0 <= v < TWO_64;
      }
    }
  }

  // ---------------------------------------------------------------- chains

  /** All lengths are numbers of 64 bits. */
  predicate NaturalLengths(y: YangType) {
    forall i :: 0 <= i < |y.Length| ==> Signed(y.Length[i].Min) >= 0 && Signed(y.Length[i].Max) < TWO_64
  }

  lemma NaturalValues(y: YangType)
    requires NaturalLengths(y)
    ensures forall v :: Member(v, LengthParent(y)) ==> 0 <= v < TWO_64
  {
  }

  lemma {:induction false} StepKeepsNatural(y: YangType, s: Types.Statement, direct: bool)
    requires TypeOk(y) && (direct ==> Builtin(y)) && NaturalLengths(y)
    ensures NaturalLengths(Derive(y, s, direct).y)
  {
    hide ParseChildRanges, Member, Coalesced, Uniform, ParseInt, RangesEqual, TypeOk;
    if s.length.Some? {
      var yr := ParseChildRanges(LengthParent(y), s.length.value, false, 0);
      NaturalValues(y);
      if yr.Ok? { LengthsWithin(y, s.length.value); }
    }
  }

  /** What is accepted as a length lies within the parent, bound by bound. */
  lemma LengthsWithin(y: YangType, text: string)
    requires TypeOk(y) && ParseChildRanges(LengthParent(y), text, false, 0).Ok?
    requires forall v :: Member(v, LengthParent(y)) ==> 0 <= v < TWO_64
    ensures var r := ParseChildRanges(LengthParent(y), text, false, 0).value;
            forall i :: 0 <= i < |r| ==> Signed(r[i].Min) >= 0 && Signed(r[i].Max) < TWO_64
  {
    hide ParseChildRanges, Coalesced, AllValid, IsSorted, Sort, CoalesceSpec, ParseParts, Split;
    LengthParentOk(y);
    RestrictionNarrows(LengthParent(y), text, false, 0);
    AcceptedIs(LengthParent(y), text, false, 0);
    var p := ParseParts(LengthParent(y), Split(text, '|'), false, 0).value;
    PartsUniform(LengthParent(y), Split(text, '|'), false, 0);
    AcceptedOrdered(p, 0);
    var r := CoalesceSpec(Sort(p));
    forall i | 0 <= i < |r|
      ensures Signed(r[i].Min) >= 0 && Signed(r[i].Max) < TWO_64
    {
      assert In(Signed(r[i].Min), r[i]) && In(Signed(r[i].Max), r[i]);
      assert Member(Signed(r[i].Min), r) && Member(Signed(r[i].Max), r);
    }
  }

  /** So no chain of typedefs allows a negative length, and the error for one is never reported. */
  lemma {:induction false} ChainLengths(t: Type)
    requires t.Wf()
    ensures NaturalLengths(t.Final().y)
    decreases t.depth
  {
    hide Derive, Builtin, TypeOk, NaturalLengths;
    if t.typedef == null {
      assert NaturalLengths(t.base) by { NoLengths(t.base); }
      StepKeepsNatural(t.base, t.statement, true);
    } else {
      var up := t.typedef.Type;
      ChainLengths(up);
      FinalOk(up);
      StepKeepsNatural(up.Final().y, t.statement, false);
      assert t.Final() == Derive(up.Final().y, t.statement, false);
    }
  }

  lemma NoLengths(y: YangType)
    requires Builtin(y)
    ensures NaturalLengths(y)
  {
  }
}
