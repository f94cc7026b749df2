/**
 What a restriction means, for every way to write its bounds: `min`, `max`, a
 number with as many fraction digits as it has, and white space around each.
 */
module Restrictions {
  import opened Text
  import opened Numbers
  import opened Ranges
  import opened RangeHeads
  import opened RangeText
  import opened RangeRoundTrip
  import opened DecimalTexts
  import opened Wrappers

  datatype Spelling = Least | Greatest | Written(n: Number)

  /** A bound with the white space around it. */
  datatype Bound = Bound(left: string, what: Spelling, right: string)

  datatype Part = One(bound: Bound) | Two(low: Bound, high: Bound)

  /** White space: the blank, tab, line breaks of ASCII, the next line and the hard blank. */
  predicate Airy(s: string) {
    forall c :: c in s ==> c in " \t\n\U{0B}\U{0C}\r\U{85}\U{A0}"
  }

  function Core(b: Spelling): string {
    match b
    case Least => "min"
    case Greatest => "max"
    case Written(n) => NumberString(n)
  }

  function BoundText(b: Bound): string {
    b.left + Core(b.what) + b.right
  }

  function PartText(p: Part): string {
    match p
    case One(b) => BoundText(b)
    case Two(lo, hi) => BoundText(lo) + ".." + BoundText(hi)
  }

  function PartTexts(parts: seq<Part>): (s: seq<string>)
    ensures |s| == |parts|
  {
    if parts == [] then [] else [PartText(parts[0])] + PartTexts(parts[1..])
  }

  /** The restriction as it is written. */
  function RestrictionText(parts: seq<Part>): string {
    Join(PartTexts(parts), "|")
  }

  /** Decimals may have any number of fraction digits, integers none. */
  predicate Spelled(b: Bound, decimal: bool) {
    && Airy(b.left) && Airy(b.right)
    && (b.what.Written? ==> decimal || b.what.n.FractionDigits == 0)
  }

  predicate SpelledPart(p: Part, decimal: bool) {
    match p
    case One(b) => Spelled(b, decimal)
    case Two(lo, hi) => Spelled(lo, decimal) && Spelled(hi, decimal)
  }

  predicate IsBound(v: Number, y: YangRange) {
    exists i :: 0 <= i < |y| && (v == y[i].Min || v == y[i].Max)
  }

  /** No bound of `y` is less, or none greater. */
  ghost predicate IsLeast(v: Number, y: YangRange) {
    IsBound(v, y) && forall m :: IsBound(m, y) ==> !Numbers.Less(m, v)
  }

  ghost predicate IsGreatest(v: Number, y: YangRange) {
    IsBound(v, y) && forall m :: IsBound(m, y) ==> !Numbers.Less(v, m)
  }

  /** The number a bound stands for below the parent `y`. */
  ghost predicate Stands(b: Bound, y: YangRange, decimal: bool, fd: Digits, v: Number) {
    match b.what
    case Least => IsLeast(v, y)
    case Greatest => IsGreatest(v, y)
    case Written(n) => if decimal then Holds(n, fd) && v == Rescaled(n, fd) else v == n
  }

  ghost predicate PartStands(p: Part, y: YangRange, decimal: bool, fd: Digits, x: YRange) {
    match p
    case One(b) => Stands(b, y, decimal, fd, x.Min) && x.Max == x.Min
    case Two(lo, hi) => Stands(lo, y, decimal, fd, x.Min) && Stands(hi, y, decimal, fd, x.Max)
  }

  // ---------------------------------------------------------------- texts

  lemma {:induction false} TrimLeftAiry(w: string, s: string)
    requires Airy(w)
    ensures TrimLeft(w + s) == TrimLeft(s)
    decreases |w|
  {
    if w == "" {
      assert w + s == s;
    } else {
      assert w[0] in w && forall c :: c in w[1..] ==> c in w;
      assert (w + s)[1..] == w[1..] + s;
      TrimLeftAiry(w[1..], s);
    }
  }

  lemma {:induction false} TrimRightAiry(s: string, w: string)
    requires Airy(w)
    ensures TrimRight(s + w) == TrimRight(s)
    decreases |w|
  {
    if w == "" {
      assert s + w == s;
    } else {
      var n := |w| - 1;
      assert w[n] in w && forall c :: c in w[..n] ==> c in w;
      assert (s + w)[..|s| + n] == s + w[..n];
      TrimRightAiry(s, w[..n]);
    }
  }

  /** White space around a text that neither starts nor ends in any is dropped. */
  lemma TrimAiry(left: string, s: string, right: string)
    requires Airy(left) && Airy(right) && s != "" && !Space(s[0]) && !Space(s[|s| - 1])
    ensures TrimSpace(left + s + right) == s
  {
    assert left + s + right == left + (s + right);
    TrimLeftAiry(left, s + right);
    assert TrimLeft(s + right) == s + right;
    TrimRightAiry(s, right);
  }

  lemma CoreText(b: Spelling)
    ensures var s := Core(b); s != "" && !Space(s[0]) && !Space(s[|s| - 1]) && Segment(s)
    ensures b.Written? ==> Core(b) != "min" && Core(b) != "max"
  {
    hide NumberString;
    if b.Written? {
      DecimalScales(b.n, 1);
      NumeralEnds(NumberString(b.n));
      NumeralSegment(NumberString(b.n));
    }
  }

  lemma AirySegment(left: string, s: string, right: string)
    requires Airy(left) && Airy(right) && Segment(s)
    ensures Segment(left + s + right)
  {
    var u := left + s + right;
    var a, b := |left|, |left| + |s|;
    forall i | 0 <= i < |u|
      ensures u[i] == if i < a then left[i] else if i < b then s[i - a] else right[i - b]
      ensures i < a || i >= b ==> u[i] != '.'
      ensures u[i] != '|'
    {
      if i < a { assert u[i] in left; } else if i < b { assert u[i] in s; } else { assert u[i] in right; }
    }
  }

  // ---------------------------------------------------------------- the least and the greatest

  lemma FirstAndLast(y: YangRange, fd: Digits)
    requires y != [] && Uniform(y, fd) && Coalesced(y) && AllValid(y)
    ensures IsLeast(y[0].Min, y) && IsGreatest(y[|y| - 1].Max, y)
  {
    hide Numbers.Less, Valid;
    var n := |y| - 1;
    forall m | IsBound(m, y)
      ensures !Numbers.Less(m, y[0].Min) && !Numbers.Less(y[n].Max, m)
    {
      var i :| 0 <= i < |y| && (m == y[i].Min || m == y[i].Max);
      LessIsKeyOrder(m, y[0].Min);
      LessIsKeyOrder(y[n].Max, m);
      assert Valid(y[i]);
      ValidSigned(y[i]);
      assert Valid(y[0]) && Valid(y[n]);
      ValidSigned(y[0]);
      ValidSigned(y[n]);
      if i > 0 { CoalescedApart(y, 0, i); }
      if i < n { CoalescedApart(y, i, n); }
    }
  }

  lemma OneLeast(a: Number, b: Number, y: YangRange, fd: Digits)
    requires Uniform(y, fd)
    ensures IsLeast(a, y) && IsLeast(b, y) ==> a == b
    ensures IsGreatest(a, y) && IsGreatest(b, y) ==> a == b
  {
    hide Numbers.Less;
    if IsBound(a, y) && IsBound(b, y) {
      LessIsKeyOrder(a, b);
      LessIsKeyOrder(b, a);
    }
  }

  /** The least bound is the least value, and the greatest bound the greatest. */
  lemma LeastIsValue(v: Number, y: YangRange, fd: Digits)
    requires Uniform(y, fd) && AllValid(y)
    ensures IsLeast(v, y) ==> Member(Signed(v), y) && forall u :: Member(u, y) ==> Signed(v) <= u
    ensures IsGreatest(v, y) ==> Member(Signed(v), y) && forall u :: Member(u, y) ==> u <= Signed(v)
  {
    hide Numbers.Less, Valid, Signed;
    if IsBound(v, y) {
      var i :| 0 <= i < |y| && (v == y[i].Min || v == y[i].Max);
      assert Valid(y[i]);
      ValidSigned(y[i]);
      assert In(Signed(v), y[i]);
      forall u | Member(u, y)
        ensures IsLeast(v, y) ==> Signed(v) <= u
        ensures IsGreatest(v, y) ==> u <= Signed(v)
      {
        var j :| 0 <= j < |y| && In(u, y[j]);
        assert IsBound(y[j].Min, y) && IsBound(y[j].Max, y);
        SignedOrder(y[j].Min, v);
        SignedOrder(v, y[j].Max);
      }
    }
  }

  lemma SignedOrder(n: Number, m: Number)
    requires n.FractionDigits == m.FractionDigits
    ensures !Numbers.Less(n, m) ==> Signed(m) <= Signed(n)
  {
    hide Numbers.Less;
    LessIsKeyOrder(n, m);
  }

  // ---------------------------------------------------------------- one bound, one part

  predicate Proper(y: YangRange, decimal: bool, fd: Digits) {
    && (decimal || fd == 0)
    && Uniform(y, fd) && Coalesced(y) && AllValid(y)
  }

  /** A bound is read exactly if it stands for a number, and as that one. */
  lemma BoundReads(y: YangRange, b: Bound, decimal: bool, fd: Digits)
    requires Proper(y, decimal, fd) && Spelled(b, decimal)
    ensures var r := ParseBound(y, TrimSpace(BoundText(b)), decimal, fd);
            && (r.Ok? ==> Stands(b, y, decimal, fd, r.value))
            && (forall v :: Stands(b, y, decimal, fd, v) ==> r == Ok(v))
  {
    hide NumberString, ParseDecimal, ParseInt, TrimSpace, Holds, Rescaled, IsLeast, IsGreatest, Coalesced, AllValid;
    CoreText(b.what);
    TrimAiry(b.left, Core(b.what), b.right);
    if b.what.Written? {
      if decimal { DecimalScales(b.what.n, fd); } else { IntegerRoundTrip(b.what.n); }
    } else if y == [] {
      NoneIsBound();
    } else {
      FirstAndLast(y, fd);
      forall v ensures b.what.Least? && IsLeast(v, y) ==> v == y[0].Min {
        OneLeast(v, y[0].Min, y, fd);
      }
      forall v ensures b.what.Greatest? && IsGreatest(v, y) ==> v == y[|y| - 1].Max {
        OneLeast(v, y[|y| - 1].Max, y, fd);
      }
    }
  }

  lemma NoneIsBound()
    ensures forall v :: !IsLeast(v, []) && !IsGreatest(v, [])
  {
  }

  lemma BoundSegment(b: Bound)
    requires Airy(b.left) && Airy(b.right)
    ensures Segment(BoundText(b))
  {
    hide Core, Segment;
    CoreText(b.what);
    AirySegment(b.left, Core(b.what), b.right);
  }

  lemma PartReads(y: YangRange, p: Part, decimal: bool, fd: Digits)
    requires Proper(y, decimal, fd) && SpelledPart(p, decimal)
    ensures var r := ParsePart(y, PartText(p), decimal, fd);
            && (r.Ok? ==> PartStands(p, y, decimal, fd, r.value) && Valid(r.value))
            && (forall x :: PartStands(p, y, decimal, fd, x) ==> r == if Valid(x) then Ok(x) else Error)
    ensures '|' !in PartText(p)
  {
    hide BoundText, ParseBound, TrimSpace, Stands, Proper, Spelled, Numbers.Less, SplitDots;
    match p
    case One(b) =>
      SpelledAiry(b, decimal);
      BoundSegment(b);
      NoDots(BoundText(b));
      BoundReads(y, b, decimal, fd);
      forall v ensures !Numbers.Less(v, v) { NotBelowItself(v); }
    case Two(lo, hi) =>
      SpelledAiry(lo, decimal);
      SpelledAiry(hi, decimal);
      BoundSegment(lo);
      BoundSegment(hi);
      TwoSegments(BoundText(lo), BoundText(hi));
      BoundReads(y, lo, decimal, fd);
      BoundReads(y, hi, decimal, fd);
  }

  lemma SpelledAiry(b: Bound, decimal: bool)
    requires Spelled(b, decimal)
    ensures Airy(b.left) && Airy(b.right)
  {
  }

  lemma NotBelowItself(v: Number)
    ensures !Numbers.Less(v, v)
  {
    LessIsStrictWeakOrder(v, v, v);
  }

  // ---------------------------------------------------------------- a restriction

  predicate AllSpelled(parts: seq<Part>, decimal: bool) {
    forall i :: 0 <= i < |parts| ==> SpelledPart(parts[i], decimal)
  }

  /** The ranges the parts stand for. */
  ghost predicate AllStand(parts: seq<Part>, y: YangRange, decimal: bool, fd: Digits, r: YangRange) {
    |r| == |parts| && forall i :: 0 <= i < |parts| ==> PartStands(parts[i], y, decimal, fd, r[i])
  }

  lemma {:induction false} PartsRead(y: YangRange, parts: seq<Part>, decimal: bool, fd: Digits)
    requires Proper(y, decimal, fd) && AllSpelled(parts, decimal)
    ensures var p := ParseParts(y, PartTexts(parts), decimal, fd);
            && (p.Ok? ==> AllStand(parts, y, decimal, fd, p.value) && AllValid(p.value))
            && (forall r :: AllStand(parts, y, decimal, fd, r) && AllValid(r) ==> p == Ok(r))
    ensures forall s :: s in PartTexts(parts) ==> '|' !in s
    decreases |parts|
  {
    hide ParsePart, PartText, PartStands, SpelledPart, Valid, Proper;
    if parts != [] {
      PartReads(y, parts[0], decimal, fd);
      PartsRead(y, parts[1..], decimal, fd);
      var p := ParseParts(y, PartTexts(parts), decimal, fd);
      assert PartTexts(parts)[1..] == PartTexts(parts[1..]);
      forall r | AllStand(parts, y, decimal, fd, r) && AllValid(r)
        ensures p == Ok(r)
      {
        assert AllStand(parts[1..], y, decimal, fd, r[1..]) && AllValid(r[1..]);
        assert PartStands(parts[0], y, decimal, fd, r[0]) && Valid(r[0]);
        assert r == [r[0]] + r[1..];
      }
    }
  }

  /**
   A restriction, in whatever way its bounds are written, is accepted exactly if
   they stand for ranges with their bounds in order whose values are values of
   the parent, save a clash of zeros and the overlap Validate finds, and it then
   has the values of these ranges.
   */
  lemma RestrictionReads(y: YangRange, parts: seq<Part>, r: YangRange, decimal: bool, fd: Digits)
    requires Proper(y, decimal, fd) && parts != [] && AllSpelled(parts, decimal)
    requires AllStand(parts, y, decimal, fd, r)
    ensures var res := ParseChildRanges(y, RestrictionText(parts), decimal, fd);
            && (res.Ok? <==>
                  && AllValid(r)
                  && (y == [] || (Subset(r, y) && !ZeroClash(y, CoalesceSpec(Sort(r)))))
                  && !StartsBelowFirst(CoalesceSpec(Sort(r))))
            && (res.Ok? ==> SameValues(res.value, r) && res.value == CoalesceSpec(Sort(r)) && Uniform(r, fd))
  {
    hide ParseParts, Split, Sort, CoalesceSpec, ContainsSpec, ValidateSpec, ParseChildRanges, PartTexts, Valid;
    hide PartStands;
    hide Subset, SameValues, ZeroClash, StartsBelowFirst, Uniform, Coalesced, AllSpelled, AllValid, Headed;
    var text := RestrictionText(parts);
    PartsRead(y, parts, decimal, fd);
    SplitJoin(PartTexts(parts), '|');
    CoalescedHead(y);
    RestrictionAccepted(y, text, decimal, fd);
    var p := ParseParts(y, PartTexts(parts), decimal, fd);
    if p.Ok? {
      SameStand(parts, y, decimal, fd, p.value, r);
      if ParseChildRanges(y, text, decimal, fd).Ok? {
        RestrictionNarrows(y, text, decimal, fd);
        AcceptedIs(y, text, decimal, fd);
        PartsUniform(y, PartTexts(parts), decimal, fd);
      }
    }
  }

  lemma AcceptedIs(y: YangRange, s: string, decimal: bool, fd: Digits)
    requires ParseChildRanges(y, s, decimal, fd).Ok?
    ensures var p := ParseParts(y, Split(s, '|'), decimal, fd);
            p.Ok? && ParseChildRanges(y, s, decimal, fd).value == CoalesceSpec(Sort(p.value))
  {
    hide ParseParts, Split, Sort, CoalesceSpec, ContainsSpec, ValidateSpec;
  }

  /** The parts stand for one list of ranges only. */
  lemma SameStand(parts: seq<Part>, y: YangRange, decimal: bool, fd: Digits, a: YangRange, b: YangRange)
    requires Uniform(y, fd) && AllStand(parts, y, decimal, fd, a) && AllStand(parts, y, decimal, fd, b)
    ensures a == b
  {
    hide IsLeast, IsGreatest, Holds, Rescaled;
    forall i | 0 <= i < |parts|
      ensures a[i] == b[i]
    {
      OneLeast(a[i].Min, b[i].Min, y, fd);
      OneLeast(a[i].Max, b[i].Max, y, fd);
      assert PartStands(parts[i], y, decimal, fd, a[i]) && PartStands(parts[i], y, decimal, fd, b[i]);
    }
  }

  /** One whose bounds do not all stand for a number is refused. */
  lemma NothingStands(y: YangRange, parts: seq<Part>, decimal: bool, fd: Digits)
    requires Proper(y, decimal, fd) && parts != [] && AllSpelled(parts, decimal)
    requires forall r :: !AllStand(parts, y, decimal, fd, r)
    ensures ParseChildRanges(y, RestrictionText(parts), decimal, fd) == Error
  {
    hide ParseParts, Split, PartTexts, PartStands, Proper, AllSpelled;
    PartsRead(y, parts, decimal, fd);
    SplitJoin(PartTexts(parts), '|');
  }

  // ---------------------------------------------------------------- more than two bounds

  lemma DotsAt(a: string, b: string)
    ensures IndexOf(a + ".." + b, "..") >= 0 && IndexOf(a + ".." + b, "..") <= |a|
  {
    var s := a + ".." + b;
    assert s[|a|..] == ".." + b;
    assert At(s, |a|, "..");
  }

  lemma ThreePieces(a: string, b: string, c: string)
    ensures |SplitDots(a + ".." + b + ".." + c)| > 2
  {
    var s := a + ".." + b + ".." + c;
    assert s == a + ".." + (b + ".." + c);
    DotsAt(a, b + ".." + c);
    var x := IndexOf(s, "..");
    var front := (a + "..")[x + 2..] + b;
    assert s[x + 2..] == front + ".." + c;
    DotsAt(front, c);
  }

  lemma {:induction false} OnePartWrong(y: YangRange, parts: seq<string>, i: nat, decimal: bool, fd: Digits)
    requires i < |parts| && ParsePart(y, parts[i], decimal, fd).Error?
    ensures ParseParts(y, parts, decimal, fd).Error?
    decreases i
  {
    hide ParsePart;
    if i > 0 {
      assert parts[1..][i - 1] == parts[i];
      OnePartWrong(y, parts[1..], i - 1, decimal, fd);
    }
  }

  /** A part with two pairs of points is refused, whatever is around them. */
  lemma ThreeBounds(y: YangRange, s: string, i: nat, a: string, b: string, c: string, decimal: bool, fd: Digits)
    requires i < |Split(s, '|')| && Split(s, '|')[i] == a + ".." + b + ".." + c
    ensures ParseChildRanges(y, s, decimal, fd) == Error
  {
    hide SplitDots, Split, ParseBound, TrimSpace, Numbers.Less;
    ThreePieces(a, b, c);
    OnePartWrong(y, Split(s, '|'), i, decimal, fd);
  }

  // ---------------------------------------------------------------- min and max

  ghost predicate LeastValue(v: int, y: YangRange) {
    Member(v, y) && forall u :: Member(u, y) ==> v <= u
  }

  ghost predicate GreatestValue(v: int, y: YangRange) {
    Member(v, y) && forall u :: Member(u, y) ==> u <= v
  }

  function Bare(b: Spelling): Bound {
    Bound("", b, "")
  }

  lemma BareText(b: Spelling)
    ensures BoundText(Bare(b)) == Core(b) && RestrictionText([One(Bare(b))]) == Core(b)
  {
    hide Core;
    assert "" + Core(b) + "" == Core(b);
    assert PartTexts([One(Bare(b))]) == [Core(b)];
    JoinOne(Core(b), "|");
  }

  lemma SingleRange(x: YRange, v: int)
    ensures Member(v, [x]) <==> In(v, x)
    ensures CoalesceSpec(Sort([x])) == [x] && !StartsBelowFirst([x])
  {
    if In(v, x) { assert In(v, [x][0]); }
    assert [x][1..] == [];
  }

  /** A bound of a proper list clashes with no zero of it. */
  lemma NoClash(y: YangRange, x: YRange, fd: Digits)
    requires Uniform(y, fd) && Coalesced(y) && AllValid(y) && y != []
    requires x.Min == x.Max || (|y| == 1 && x == y[0])
    requires x.Min == y[0].Min || x.Max == y[|y| - 1].Max
    ensures !ZeroClash(y, [x])
  {
    hide Valid;
    var n := |y| - 1;
    forall j | 0 <= j < |y|
      ensures !ZeroClashAt(y[j], x)
    {
      assert Valid(y[j]) && Valid(y[0]) && Valid(y[n]);
      ValidSigned(y[j]);
      if j > 0 { CoalescedApart(y, 0, j); }
      if j < n { CoalescedApart(y, j, n); }
    }
  }

  lemma MinOrMax(y: YangRange, b: Spelling, decimal: bool, fd: Digits, n: Number)
    requires Proper(y, decimal, fd) && y != [] && !b.Written?
    requires Stands(Bare(b), y, decimal, fd, n)
    ensures ParseChildRanges(y, Core(b), decimal, fd) == Ok([YRange(n, n)])
  {
    hide ParseChildRanges, CoalesceSpec, Sort, Numbers.Less, IsLeast, IsGreatest, Coalesced, AllValid, Uniform;
    var x := YRange(n, n);
    BareText(b);
    RestrictionReads(y, [One(Bare(b))], [x], decimal, fd);
    SingleRange(x, 0);
    LeastIsValue(n, y, fd);
    FirstAndLast(y, fd);
    OneLeast(n, y[0].Min, y, fd);
    OneLeast(n, y[|y| - 1].Max, y, fd);
    NoClash(y, x, fd);
    NotBelowItself(n);
    assert Valid([x][0]) && AllValid([x]) by { ValidAlone(x); }
    forall v | Member(v, [x]) ensures Member(v, y) { SingleRange(x, v); }
  }

  lemma ValidAlone(x: YRange)
    requires Valid(x)
    ensures AllValid([x])
  {
    hide Valid;
  }

  /** The text `min` reads as the least value of the parent alone, and `max` as the greatest. */
  lemma MinAndMax(y: YangRange, decimal: bool, fd: Digits)
    requires Proper(y, decimal, fd) && y != []
    ensures var r := ParseChildRanges(y, "min", decimal, fd);
            r.Ok? && |r.value| == 1 && forall v :: Member(v, r.value) <==> LeastValue(v, y)
    ensures var r := ParseChildRanges(y, "max", decimal, fd);
            r.Ok? && |r.value| == 1 && forall v :: Member(v, r.value) <==> GreatestValue(v, y)
  {
    hide ParseChildRanges, IsLeast, IsGreatest, Coalesced, AllValid, Uniform;
    FirstAndLast(y, fd);
    var lo, hi := y[0].Min, y[|y| - 1].Max;
    MinOrMax(y, Least, decimal, fd, lo);
    MinOrMax(y, Greatest, decimal, fd, hi);
    LeastIsValue(lo, y, fd);
    LeastIsValue(hi, y, fd);
    forall v
      ensures Member(v, [YRange(lo, lo)]) <==> v == Signed(lo)
      ensures Member(v, [YRange(hi, hi)]) <==> v == Signed(hi)
    {
      SingleRange(YRange(lo, lo), v);
      SingleRange(YRange(hi, hi), v);
    }
  }

  /** `min..max` is accepted exactly if the parent is one range, and means just that. */
  lemma MinToMax(y: YangRange, decimal: bool, fd: Digits)
    requires Proper(y, decimal, fd) && y != []
    ensures var r := ParseChildRanges(y, "min..max", decimal, fd);
            && (r.Ok? <==> |y| == 1)
            && (r.Ok? ==> SameValues(r.value, y))
  {
    hide ParseChildRanges, CoalesceSpec, Sort, IsLeast, IsGreatest, Numbers.Less, ZeroClash, StartsBelowFirst;
    FirstAndLast(y, fd);
    var n := |y| - 1;
    var x, p := YRange(y[0].Min, y[n].Max), Two(Bare(Least), Bare(Greatest));
    BareText(Least);
    BareText(Greatest);
    assert PartText(p) == "min..max" && PartTexts([p]) == ["min..max"];
    JoinOne("min..max", "|");
    RestrictionReads(y, [p], [x], decimal, fd);
    SingleRange(x, 0);
    assert Valid(y[0]) && Valid(y[n]);
    ValidSigned(y[0]);
    ValidSigned(y[n]);
    if n > 0 {
      CoalescedApart(y, 0, n);
      var v := Signed(y[0].Max) + 1;
      SingleRange(x, v);
      NotBetween(y, v);
      assert Member(v, [x]) && !Member(v, y);
    } else {
      assert y == [x];
      NoClash(y, x, fd);
    }
  }

  lemma NotBetween(y: YangRange, v: int)
    requires Coalesced(y) && |y| > 1 && v == Signed(y[0].Max) + 1
    ensures !Member(v, y)
  {
    forall i | 0 <= i < |y|
      ensures !In(v, y[i])
    {
      if i > 0 { CoalescedApart(y, 0, i); }
    }
  }

  predicate NamesBound(p: Part) {
    match p
    case One(b) => !b.what.Written?
    case Two(lo, hi) => !lo.what.Written? || !hi.what.Written?
  }

  /** Without a parent, a restriction with `min` or `max` anywhere is refused. */
  lemma NoParent(parts: seq<Part>, i: nat, decimal: bool, fd: Digits)
    requires (decimal || fd == 0) && AllSpelled(parts, decimal) && i < |parts| && NamesBound(parts[i])
    ensures ParseChildRanges([], RestrictionText(parts), decimal, fd) == Error
  {
    hide ParseChildRanges, AllSpelled;
    forall r
      ensures !AllStand(parts, [], decimal, fd, r)
    {
      if |r| == |parts| { assert !PartStands(parts[i], [], decimal, fd, r[i]); }
    }
    NothingStands([], parts, decimal, fd);
  }

  /**
   Below the range whose parts overlap, `max` reads as eight, although the
   range goes up to 2^64-1.
   */
  lemma MaxBelowGreatest()
    ensures ParseChildRanges(Overlapping(), "max", false, 0) == Ok([YRange(Whole(8), Whole(8))])
    ensures Member(TWO_64 - 1, Overlapping())
  {
    hide Numbers.Less;
    var y, x := Overlapping(), YRange(Whole(8), Whole(8));
    assert In(TWO_64 - 1, y[1]);
    JoinOne("max", "|");
    SplitJoin(["max"], '|');
    CoreText(Greatest);
    NoDots("max");
    TrimNothing("max");
    NotBelowItself(Whole(8));
    SingleRange(x, 8);
    LessIsKeyOrder(y[0].Max, x.Min);
    LessIsKeyOrder(y[1].Max, x.Min);
    LessIsKeyOrder(x.Min, y[1].Min);
    LessIsKeyOrder(y[1].Max, x.Max);
    assert [x][1..] == [];
  }
}
