/** Numbers and coalesced ranges survive being written and read back. */
module RangeRoundTrip {
  import opened Text
  import opened Numbers
  import opened Ranges
  import opened RangeText
  import opened Wrappers

  predicate IsDigit(c: char) {
    '0' <= c <= '9'
  }

  predicate Digital(s: string) {
    forall i :: 0 <= i < |s| ==> IsDigit(s[i])
  }

  lemma {:induction false} DecimalDigital(v: nat)
    ensures Digital(Decimal(v))
    ensures v > 0 ==> Decimal(v)[0] != '0'
    ensures v == 0 ==> Decimal(v) == "0"
  {
    if v >= 10 { DecimalDigital(v / 10); }
  }

  lemma {:induction false} AccumulateConcat(a: string, b: string, under: bool, acc: Uint64)
    ensures var x := Accumulate(a, 10, under, acc);
            Accumulate(a + b, 10, under, acc) == if x.Error? then Error else Accumulate(b, 10, under, x.value)
    decreases |a|
  {
    hide Digit;
    if a == "" {
      assert a + b == b;
    } else {
      assert (a + b)[1..] == a[1..] + b;
      if under && a[0] == '_' {
        AccumulateConcat(a[1..], b, under, acc);
      } else {
        var d := Digit(a[0]);
        if d < 10 && acc * 10 + d < TWO_64 { AccumulateConcat(a[1..], b, under, acc * 10 + d); }
      }
    }
  }

  /** Reading the decimal digits of a number gives the number. */
  lemma {:induction false} AccumulateDecimal(v: Uint64, under: bool)
    ensures Accumulate(Decimal(v), 10, under, 0) == Ok(v)
    decreases v
  {
    hide Accumulate;
    var last := [('0' as int + v % 10) as char];
    LastDigit(v % 10, under, v / 10);
    if v >= 10 {
      AccumulateDecimal(v / 10, under);
      AccumulateConcat(Decimal(v / 10), last, under, 0);
    }
  }

  lemma LastDigit(d: nat, under: bool, acc: Uint64)
    requires d < 10 && acc * 10 + d < TWO_64
    ensures Accumulate([('0' as int + d) as char], 10, under, acc) == Ok(acc * 10 + d)
  {
    var c := ('0' as int + d) as char;
    assert Digit(c) == d && c != '_';
    assert [c][1..] == "";
  }

  lemma {:induction false} AccumulateZeros(n: nat, s: string)
    ensures Accumulate(Zeros(n) + s, 10, false, 0) == Accumulate(s, 10, false, 0)
  {
    if n == 0 {
      assert Zeros(0) + s == s;
    } else {
      assert (Zeros(n) + s)[1..] == Zeros(n - 1) + s;
      AccumulateZeros(n - 1, s);
    }
  }

  /** Neither end of `s` is white space. */
  lemma TrimNothing(s: string)
    requires s != "" && !Space(s[0]) && !Space(s[|s| - 1])
    ensures TrimSpace(s) == s
  {
  }

  lemma ParseUintDecimal(v: Uint64)
    ensures ParseUintAnyBase(Decimal(v)) == Ok(v)
  {
    hide Accumulate, UnderscoresOk;
    DecimalDigital(v);
    AccumulateDecimal(v, true);
    if v == 0 {
      assert "0"[1..] == "";
      AccumulateNothing();
    }
    assert '_' !in Decimal(v);
  }

  lemma AccumulateNothing()
    ensures Accumulate("", 8, true, 0) == Ok(0)
  {
  }

  /** The characters of a number, with at most lone points inside. */
  predicate Numeral(s: string) {
    && s != ""
    && (forall i :: 0 <= i < |s| ==> IsDigit(s[i]) || s[i] == '.' || s[i] == '-')
    && (forall i :: 0 < i < |s| ==> !(s[i - 1] == '.' && s[i] == '.'))
    && IsDigit(s[|s| - 1]) && s[0] != '.'
  }

  /** Every integer reads back, also a negative zero. */
  lemma IntegerRoundTrip(n: Number)
    requires n.FractionDigits == 0
    ensures Numeral(NumberString(n)) && ParseInt(NumberString(n)) == Ok(n)
  {
    hide ParseUintAnyBase, Decimal;
    var d := Decimal(n.Value);
    var s := NumberString(n);
    DecimalDigital(n.Value);
    ParseUintDecimal(n.Value);
    assert IsDigit(d[0]) && IsDigit(d[|d| - 1]);
    TrimNothing(s);
    if n.Negative {
      assert s == "-" + d && s[1..] == d;
    } else {
      assert s == d;
    }
  }

  /** A decimal is written with the point before its last `FractionDigits` digits, at least one before it. */
  lemma DecimalText(n: Number, padded: string, point: nat)
    requires n.FractionDigits > 0
    requires var d := Decimal(n.Value);
             var ofd := |d| - n.FractionDigits;
             && point == (if ofd <= 0 then 1 else ofd)
             && padded == (if ofd <= 0 then Zeros(1 - ofd) + d else d) && point <= |padded|
    ensures NumberString(n) == (if n.Negative then "-" else "") + padded[..point] + "." + padded[point..]
  {
    hide Decimal;
    var out := padded[..point] + "." + padded[point..];
    assert "" + padded[..point] == padded[..point];
    assert "-" + out == "-" + padded[..point] + "." + padded[point..];
  }

  lemma DecimalParts(n: Number) returns (a: string, b: string)
    requires n.FractionDigits > 0
    ensures Digital(a) && Digital(b) && a != "" && |b| == n.FractionDigits
    ensures NumberString(n) == (if n.Negative then "-" else "") + a + "." + b
    ensures Accumulate(a + b, 10, false, 0) == Ok(n.Value)
  {
    hide Accumulate, Decimal, NumberString;
    var d := Decimal(n.Value);
    DecimalDigital(n.Value);
    AccumulateDecimal(n.Value, false);
    var ofd := |d| - n.FractionDigits;
    var padded, point := d, ofd;
    if ofd <= 0 {
      AccumulateZeros(1 - ofd, d);
      padded, point := Zeros(1 - ofd) + d, 1;
    }
    DecimalText(n, padded, point);
    a, b := padded[..point], padded[point..];
    assert a + b == padded;
  }

  lemma PointIndex(sign: string, a: string, b: string)
    requires (sign == "" || sign == "-") && Digital(a)
    ensures IndexOf(sign + a + "." + b, ".") == |sign + a|
  {
    var s := sign + a + "." + b;
    var k := |sign + a|;
    assert s[k..] == "." + b;
    assert At(s, k, ".");
    forall j | 0 <= j < k
      ensures !At(s, j, ".")
    {
      assert s[j] == (sign + a)[j];
      if j >= |sign| { assert IsDigit(a[j - |sign|]); }
      assert s[j..][0] == s[j];
    }
  }

  /** A decimal reads back exactly when its quanta fit an int64 and it is no negative zero. */
  lemma DecimalRoundTrip(n: Number)
    requires n.FractionDigits > 0
    ensures Numeral(NumberString(n))
    ensures ParseDecimal(NumberString(n), n.FractionDigits) == Ok(n)
       <==> !NegativeZero(n) && -TWO_63 <= Signed(n) < TWO_63
  {
    hide Accumulate, Decimal, IndexOf, NumberString;
    var fd := n.FractionDigits;
    var a, b := DecimalParts(n);
    var sign := if n.Negative then "-" else "";
    var s := NumberString(n);
    assert s == sign + a + "." + b;
    PointIndex(sign, a, b);
    assert IsDigit(a[0]) && IsDigit(b[|b| - 1]);
    TrimNothing(s);
    var dx := |sign + a|;
    assert s[..dx] + s[dx + 1..] == sign + (a + b);
    assert sign + (a + b) + Zeros(fd - fd) == sign + (a + b);
    var digits := sign + (a + b);
    assert (a + b)[0] == a[0];
    if n.Negative {
      assert digits[1..] == a + b;
    } else {
      assert digits == a + b;
    }
    NumeralParts(sign, a, b);
  }

  lemma NumeralParts(sign: string, a: string, b: string)
    requires (sign == "" || sign == "-") && Digital(a) && Digital(b) && a != "" && b != ""
    ensures Numeral(sign + a + "." + b)
  {
    var s := sign + a + "." + b;
    var k := |sign| + |a|;
    assert forall i :: |sign| <= i < k ==> s[i] == a[i - |sign|];
    assert forall i :: k < i < |s| ==> s[i] == b[i - k - 1];
    assert s[k] == '.';
  }

  // ---------------------------------------------------------------- ranges

  /** A text that splitting at pipes and at two points leaves whole, next to others as well. */
  predicate Segment(s: string) {
    && s != "" && s[0] != '.' && s[|s| - 1] != '.' && '|' !in s
    && forall i :: 0 < i < |s| ==> !(s[i - 1] == '.' && s[i] == '.')
  }

  lemma NumeralSegment(s: string)
    requires Numeral(s)
    ensures Segment(s)
  {
  }

  lemma NoDots(s: string)
    requires Segment(s)
    ensures SplitDots(s) == [s]
  {
    forall j | 0 <= j <= |s|
      ensures !At(s, j, "..")
    {
      if j + 1 < |s| { assert s[j..][0] == s[j] && s[j..][1] == s[j + 1]; }
    }
  }

  lemma TwoSegments(s: string, t: string)
    requires Segment(s) && Segment(t)
    ensures SplitDots(s + ".." + t) == [s, t] && '|' !in s + ".." + t
  {
    var u := s + ".." + t;
    assert u[|s|..] == ".." + t;
    assert At(u, |s|, "..");
    forall j | 0 <= j < |s|
      ensures !At(u, j, "..")
    {
      assert u[j] == s[j];
      if j + 1 < |s| { assert u[j + 1] == s[j + 1]; }
    }
    assert IndexOf(u, "..") == |s|;
    assert u[..|s|] == s && u[|s| + 2..] == t;
    NoDots(s);
    NoDots(t);
  }

  /** A number that reads back from its text. */
  predicate Readable(n: Number) {
    n.FractionDigits > 0 ==> !NegativeZero(n) && -TWO_63 <= Signed(n) < TWO_63
  }

  predicate AllReadable(r: YangRange) {
    forall i :: 0 <= i < |r| ==> Readable(r[i].Min) && Readable(r[i].Max)
  }

  lemma BoundRoundTrip(y: YangRange, n: Number)
    requires Readable(n)
    ensures var fd := n.FractionDigits;
            var s := NumberString(n);
            Numeral(s) && ParseBound(y, TrimSpace(s), fd > 0, fd) == Ok(n)
  {
    hide NumberString, ParseInt, ParseDecimal, Readable;
    if n.FractionDigits > 0 {
      assert Readable(n);
      ReadableDecimal(n);
      DecimalRoundTrip(n);
    } else {
      ReadableDecimal(n);
      IntegerRoundTrip(n);
    }
    var s := NumberString(n);
    NumeralEnds(s);
    TrimNothing(s);
  }

  lemma ReadableDecimal(n: Number)
    requires Readable(n)
    ensures n.FractionDigits > 0 ==> !NegativeZero(n) && -TWO_63 <= Signed(n) < TWO_63
  {
  }

  lemma NumeralEnds(s: string)
    requires Numeral(s)
    ensures s != "" && !Space(s[0]) && !Space(s[|s| - 1]) && s != "max" && s != "min"
  {
    assert s[0] != 'm';
  }

  lemma PartRoundTrip(y: YangRange, x: YRange, fd: Digits)
    requires x.Min.FractionDigits == fd && x.Max.FractionDigits == fd
    requires Readable(x.Min) && Readable(x.Max) && Valid(x)
    ensures ParsePart(y, RangeString(x), fd > 0, fd) == Ok(x) && '|' !in RangeString(x)
  {
    hide NumberString, ParseBound, Numbers.Less, TrimSpace, SplitDots, Numeral;
    BoundRoundTrip(y, x.Min);
    BoundRoundTrip(y, x.Max);
    LessIsKeyOrder(x.Min, x.Max);
    LessIsKeyOrder(x.Max, x.Min);
    var s, t := NumberString(x.Min), NumberString(x.Max);
    NumeralSegment(s);
    NumeralSegment(t);
    if Equal(x.Min, x.Max) {
      NoDots(s);
      assert x.Min == x.Max;
    } else {
      TwoSegments(s, t);
    }
  }

  lemma {:induction false} PartsRoundTrip(y: YangRange, r: YangRange, fd: Digits)
    requires Uniform(r, fd) && AllReadable(r)
    requires AllValid(r)
    ensures ParseParts(y, RangeStrings(r), fd > 0, fd) == Ok(r)
    ensures forall p :: p in RangeStrings(r) ==> '|' !in p
    decreases r
  {
    hide RangeString, ParsePart, Readable, Signed;
    if r != [] {
      PartRoundTrip(y, r[0], fd);
      PartsRoundTrip(y, r[1..], fd);
      assert RangeStrings(r)[0] == RangeString(r[0]) && RangeStrings(r)[1..] == RangeStrings(r[1..]);
      assert RangeStrings(r) == [RangeStrings(r)[0]] + RangeStrings(r)[1..];
      assert r == [r[0]] + r[1..];
    }
  }

  /** A non-empty coalesced range of valid parts reads back from its text as it was. */
  lemma RangesRoundTrip(r: YangRange, fd: Digits)
    requires r != [] && Uniform(r, fd) && Coalesced(r) && AllValid(r) && AllReadable(r)
    ensures (if fd == 0 then ParseRangesInt(RangesString(r)) else ParseRangesDecimal(RangesString(r), fd)) == Ok(r)
  {
    hide ParseParts, Split, RangeStrings, Sort, CoalesceSpec, ContainsSpec, ValidateSpec, Readable, Numbers.Less;
    PartsRoundTrip([], r, fd);
    SplitJoin(RangeStrings(r), '|');
    CoalescedValidates(r, fd);
    ValidatedIsSorted(r);
    SortFixed(r);
    CoalesceFixed(r, fd);
    AnyReceiver([], r);
  }

  function Whole(value: Uint64): Number {
    Number(value, 0, false)
  }

  /** 1..2 | 5..18446744073709551615 | 7..8: the last part lies inside the one before. */
  function Overlapping(): YangRange {
    [YRange(Whole(1), Whole(2)), YRange(Whole(5), Whole(TWO_64 - 1)), YRange(Whole(7), Whole(8))]
  }

  /**
   Parts that overlap can be accepted as they are: the quantum after
   18446744073709551615 wraps to zero, so the part that follows is taken to
   start later, and validation compares it with the first part only.
   */
  lemma OverlapAccepted()
    ensures ParseRangesInt(RangesString(Overlapping())) == Ok(Overlapping())
    ensures !Coalesced(Overlapping())
  {
    hide ParseParts, Split, RangeStrings, Sort, ContainsSpec, Numbers.Less;
    var r := Overlapping();
    forall i | 0 <= i < 3 ensures Valid(r[i]) { LessIsKeyOrder(r[i].Max, r[i].Min); }
    PartsRoundTrip([], r, 0);
    SplitJoin(RangeStrings(r), '|');
    OverlapStays();
    SortFixed(r);
    AnyReceiver([], r);
  }

  lemma OverlapStays()
    ensures CoalesceSpec(Overlapping()) == Overlapping() && ValidateSpec(Overlapping()) && IsSorted(Overlapping())
  {
    hide Numbers.Less, StartsAfter;
    var r := Overlapping();
    StartsAfterMeans(r[0], r[1]);
    StartsAfterMeans(r[1], r[2]);
    forall i | 1 <= i < 3
      ensures !Before(r[i], r[i - 1])
    {
      LessIsKeyOrder(r[i].Min, r[i - 1].Min);
      LessIsKeyOrder(r[i - 1].Min, r[i].Min);
    }
    LessIsKeyOrder(r[0].Max, r[0].Min);
    LessIsKeyOrder(r[1].Min, r[0].Max);
    LessIsKeyOrder(r[2].Min, r[0].Max);
    assert Extend([r[0]], r[1]) == [r[0], r[1]];
    assert Extend([r[0], r[1]], r[2]) == r;
    assert r[1..] == [r[1], r[2]] && r[1..][1..] == [r[2]];
  }

  lemma ValidatedIsSorted(r: YangRange)
    requires ValidateSpec(r)
    ensures IsSorted(r)
  {
  }
}
