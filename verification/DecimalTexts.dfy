/**
 What decimalValueFromString (pkg/yang/types_builtin.go) reads, for every text
 and every number of fraction digits asked for.
 */
module DecimalTexts {
  import opened Text
  import opened Numbers
  import opened RangeText
  import opened RangeRoundTrip
  import opened Wrappers

  /** The value of a string of decimal digits, after digits worth `acc`. */
  function Worth(s: string, acc: nat): nat
    requires Digital(s)
  {
    if s == "" then acc else Worth(s[1..], acc * 10 + (s[0] - '0') as nat)
  }

  lemma {:induction false} WorthGrows(s: string, acc: nat)
    requires Digital(s)
    ensures Worth(s, acc) >= acc
  {
    if s != "" { WorthGrows(s[1..], acc * 10 + (s[0] - '0') as nat); }
  }

  lemma {:induction false} AccumulateWorth(s: string, acc: Uint64)
    requires Digital(s)
    ensures Accumulate(s, 10, false, acc) == if Worth(s, acc) < TWO_64 then Ok(Worth(s, acc)) else Error
    decreases |s|
  {
    if s != "" {
      var d := (s[0] - '0') as nat;
      assert Digit(s[0]) == d;
      WorthGrows(s[1..], acc * 10 + d);
      if acc * 10 + d < TWO_64 { AccumulateWorth(s[1..], acc * 10 + d); }
    }
  }

  lemma {:induction false} WorthZeros(s: string, k: nat, acc: nat)
    requires Digital(s)
    ensures Digital(s + Zeros(k)) && Worth(s + Zeros(k), acc) == Worth(s, acc) * Pow10(k)
    decreases |s|, k
  {
    var z := s + Zeros(k);
    if s != "" {
      assert z[1..] == s[1..] + Zeros(k);
      WorthZeros(s[1..], k, acc * 10 + (s[0] - '0') as nat);
    } else if k > 0 {
      assert z[1..] == "" + Zeros(k - 1);
      WorthZeros("", k - 1, acc * 10);
      Numbers.Associate(acc, 10, Pow10(k - 1));
    } else {
      assert z == "";
    }
  }

  /** A sign or none, and digits. */
  predicate Plain(sign: string, digits: string) {
    (sign == "" || sign == "-" || sign == "+") && Digital(digits)
  }

  /** Whether 64 signed bits hold the number with that sign and that value. */
  predicate Fits(sign: string, v: nat) {
    if sign == "-" then v <= TWO_63 else v < TWO_63
  }

  function SignedWorth(sign: string, v: nat): int {
    if sign == "-" then -(v as int) else v
  }

  lemma ReadSigned(sign: string, digits: string)
    requires Plain(sign, digits)
    ensures var v := Worth(digits, 0);
            ParseInt64(sign + digits) ==
            if digits != "" && Fits(sign, v) then Ok(SignedWorth(sign, v)) else Error
  {
    hide Accumulate, Worth;
    AccumulateWorth(digits, 0);
    var s := sign + digits;
    if sign == "" {
      assert s == digits;
      if digits != "" { assert IsDigit(s[0]); }
    } else {
      assert s[0] == sign[0] && s[1..] == digits;
    }
  }

  /** The text with a point before its last `d` characters. */
  function Pointed(w: string, d: nat): string
    requires d <= |w|
  {
    w[..|w| - d] + "." + w[|w| - d..]
  }

  lemma PlainSolid(sign: string, digits: string, i: nat)
    requires Plain(sign, digits) && i < |sign + digits|
    ensures var c := (sign + digits)[i]; c != '.' && !Space(c)
  {
    if i >= |sign| { assert IsDigit(digits[i - |sign|]); }
  }

  lemma FirstPoint(sign: string, digits: string, d: nat)
    requires Plain(sign, digits) && d <= |sign + digits|
    ensures var w := sign + digits; IndexOf(Pointed(w, d), ".") == |w| - d
  {
    var w := sign + digits;
    var s, k := Pointed(w, d), |w| - d;
    assert s[k..] == "." + w[k..] && At(s, k, ".");
    forall j | 0 <= j < k
      ensures !At(s, j, ".")
    {
      PlainSolid(sign, digits, j);
      assert s[j..][0] == w[j];
    }
  }

  lemma NoPoint(sign: string, digits: string)
    requires Plain(sign, digits)
    ensures IndexOf(sign + digits, ".") < 0
  {
    var w := sign + digits;
    forall j | 0 <= j <= |w|
      ensures !At(w, j, ".")
    {
      if j < |w| {
        PlainSolid(sign, digits, j);
        assert w[j..][0] == w[j];
      }
    }
  }

  /** What is read of sign and digits of which `frac` stand behind the point. */
  predicate ReadAs(r: Result<Number>, sign: string, digits: string, frac: nat, e: nat)
    requires Digital(digits)
  {
    if 1 <= e <= 18 && frac <= e && (digits != "" || frac < e) && Fits(sign, Worth(digits, 0) * Pow10(e - frac))
    then r.Ok? && r.value.FractionDigits == e && !NegativeZero(r.value)
      && Signed(r.value) == SignedWorth(sign, Worth(digits, 0)) * Pow10(e - frac)
    else r.Error?
  }

  /** The digits with zeros for the fraction digits that are missing. */
  lemma ReadScaled(sign: string, digits: string, k: nat)
    requires Plain(sign, digits)
    ensures var v := Worth(digits, 0) * Pow10(k);
            ParseInt64(sign + digits + Zeros(k)) ==
            if (digits != "" || k > 0) && Fits(sign, v) then Ok(SignedWorth(sign, v)) else Error
  {
    hide ParseInt64, Worth;
    WorthZeros(digits, k, 0);
    ReadSigned(sign, digits + Zeros(k));
    assert sign + (digits + Zeros(k)) == sign + digits + Zeros(k);
  }

  /** So they are read as the specification says. */
  lemma QuantaRead(sign: string, digits: string, frac: nat, e: nat, r: Result<Number>)
    requires Plain(sign, digits)
    requires if !(1 <= e <= 18) || frac > e then r.Error?
             else
               var v := ParseInt64(sign + digits + Zeros(e - frac));
               if v.Error? then r.Error?
               else r == Ok(Number(if v.value < 0 then -v.value else v.value, e, v.value < 0))
    ensures ReadAs(r, sign, digits, frac, e)
  {
    hide ParseInt64, Worth, Pow10;
    if 1 <= e <= 18 && frac <= e {
      ReadScaled(sign, digits, e - frac);
      NegateProduct(Worth(digits, 0), Pow10(e - frac));
    }
  }

  /**
   A text with a point anywhere in a sign and digits: the digits behind the
   point are counted modulo 256.
   */
  lemma PointedReads(sign: string, digits: string, d: nat, e: nat)
    requires Plain(sign, digits) && d <= |sign + digits|
    ensures ReadAs(ParseDecimal(Pointed(sign + digits, d), e), sign, digits, d % 256, e)
  {
    hide ParseInt64, Worth, IndexOf, TrimSpace, Space, ReadAs, Fits, Plain;
    var w := sign + digits;
    var s := Pointed(w, d);
    FirstPoint(sign, digits, d);
    EndsSolid(sign, digits, d);
    TrimNothing(s);
    var k := |w| - d;
    assert s[..k] + s[k + 1..] == w && |s| - 1 - k == d;
    QuantaRead(sign, digits, d % 256, e, ParseDecimal(s, e));
  }

  lemma EndsSolid(sign: string, digits: string, d: nat)
    requires Plain(sign, digits) && d <= |sign + digits|
    ensures var s := Pointed(sign + digits, d);
            s != "" && !Space(s[0]) && !Space(s[|s| - 1]) && s != "+" && s != "-"
  {
    var w := sign + digits;
    var s := Pointed(w, d);
    if d < |w| { PlainSolid(sign, digits, 0); }
    if d > 0 { PlainSolid(sign, digits, |w| - 1); }
    assert s[|w| - d] == '.';
  }

  /** A text without a point. */
  lemma PlainReads(sign: string, digits: string, e: nat)
    requires Plain(sign, digits) && digits != ""
    ensures ReadAs(ParseDecimal(sign + digits, e), sign, digits, 0, e)
  {
    hide ParseInt64, Worth, IndexOf, TrimSpace, Space, ReadAs, Fits;
    var w := sign + digits;
    NoPoint(sign, digits);
    PlainSolid(sign, digits, 0);
    PlainSolid(sign, digits, |w| - 1);
    assert w[|w| - 1] == digits[|digits| - 1] && IsDigit(digits[|digits| - 1]);
    TrimNothing(w);
    QuantaRead(sign, digits, 0, e, ParseDecimal(w, e));
  }

  // ---------------------------------------------------------------- and no other texts

  lemma {:induction false} AccumulatedDigits(s: string, acc: Uint64)
    requires Accumulate(s, 10, false, acc).Ok?
    ensures Digital(s)
    decreases |s|
  {
    if s != "" {
      var d := Digit(s[0]);
      AccumulatedDigits(s[1..], acc * 10 + d);
      assert IsDigit(s[0]);
      assert forall i :: 1 <= i < |s| ==> s[i] == s[1..][i - 1];
    }
  }

  lemma QuantaForm(w: string, k: nat) returns (sign: string, digits: string)
    requires ParseInt64(w + Zeros(k)).Ok?
    ensures Plain(sign, digits) && w == sign + digits && (digits != "" || k > 0)
  {
    hide Accumulate;
    var z := w + Zeros(k);
    sign, digits := "", w;
    if w != "" && (w[0] == '-' || w[0] == '+') {
      sign, digits := [w[0]], w[1..];
      assert z[1..] == digits + Zeros(k);
    } else if w == "" && z != "" {
      assert z[0] == '0';
    }
    AccumulatedDigits(digits + Zeros(k), 0);
    assert forall i :: 0 <= i < |digits| ==> digits[i] == (digits + Zeros(k))[i];
  }

  /** A text that is read holds a sign or none and digits, and at most one point at any place among them. */
  lemma DecimalForm(text: string, e: nat) returns (sign: string, digits: string, point: bool, d: nat)
    requires ParseDecimal(text, e).Ok?
    ensures Plain(sign, digits) && d <= |sign + digits| && (!point ==> digits != "")
    ensures TrimSpace(text) == if point then Pointed(sign + digits, d) else sign + digits
  {
    hide ParseInt64, TrimSpace, IndexOf, Plain;
    var s := TrimSpace(text);
    var dx := IndexOf(s, ".");
    point := dx >= 0;
    d := if point then |s| - 1 - dx else 0;
    var w := if point then s[..dx] + s[dx + 1..] else s;
    sign, digits := QuantaForm(w, e - d % 256);
    if point {
      assert s[dx..][0] == '.';
      assert s == Pointed(w, d);
    } else if digits == "" {
      assert Plain(sign, "");
      LoneSign(sign);
    }
  }

  lemma LoneSign(sign: string)
    requires Plain(sign, "")
    ensures sign + "" in {"", "-", "+"}
  {
    assert sign + "" == sign;
  }

  // ---------------------------------------------------------------- the numbers

  /** The rational a text stands for that has `d` digits behind the point. */
  function Denoted(sign: string, digits: string, d: nat): real
    requires Digital(digits)
  {
    SignedWorth(sign, Worth(digits, 0)) as real / Pow10(d) as real
  }

  /** A number read with `frac` fraction digits where zeros make up the rest. */
  lemma ReadRational(n: Number, v: int, frac: nat)
    requires frac <= n.FractionDigits && Signed(n) == v * Pow10(n.FractionDigits - frac)
    ensures Rational(n) == v as real / Pow10(frac) as real
  {
    hide Pow10, Signed;
    var e := n.FractionDigits;
    var q := Pow10(e - frac);
    Pow10Add(frac, e - frac);
    MulReal(v, q);
    MulReal(Pow10(frac), q);
    SameQuotient(Signed(n) as real, Pow10(e) as real, v as real, Pow10(frac) as real, q as real);
  }

  lemma SmallerQuotient(v: int, p: nat, q: nat)
    requires 0 < p < q && v != 0
    ensures v as real / p as real != v as real / q as real
  {
    var x, y, d := v as real / p as real, v as real / q as real, q as real - p as real;
    assert x * p as real == v as real && y * q as real == v as real;
    assert x * d != 0.0;
    assert x * q as real == x * p as real + x * d;
  }

  lemma {:induction false} Pow10Grows(a: nat, b: nat)
    requires a < b
    ensures Pow10(a) < Pow10(b)
    decreases b
  {
    if a < b - 1 { Pow10Grows(a, b - 1); }
  }

  /** A text that is accepted is read as the number it stands for exactly unless 256 digits or more follow the point. */
  lemma PointedIsExact(sign: string, digits: string, d: nat, e: nat)
    requires Plain(sign, digits) && d <= |sign + digits|
    requires ParseDecimal(Pointed(sign + digits, d), e).Ok?
    ensures Rational(ParseDecimal(Pointed(sign + digits, d), e).value) == Denoted(sign, digits, d)
       <==> d < 256 || Worth(digits, 0) == 0
  {
    hide Pow10, Worth, Rational, ParseDecimal, Signed, Fits;
    PointedReads(sign, digits, d, e);
    var v := SignedWorth(sign, Worth(digits, 0));
    ReadRational(ParseDecimal(Pointed(sign + digits, d), e).value, v, d % 256);
    if d >= 256 && v != 0 {
      Pow10Grows(d % 256, d);
      SmallerQuotient(v, Pow10(d % 256), Pow10(d));
    }
  }

  /** Whether 64 signed bits hold `n` in units of `e` fraction digits. */
  predicate Holds(n: Number, e: nat) {
    && n.FractionDigits <= e <= 18 && 1 <= e
    && -TWO_63 <= Signed(n) * Pow10(e - n.FractionDigits) < TWO_63
  }

  /** The same number with `e` fraction digits; a negative zero loses its sign. */
  function Rescaled(n: Number, e: nat): (m: Number)
    requires Holds(n, e)
    ensures m.FractionDigits == e && !NegativeZero(m) && Signed(m) == Signed(n) * Pow10(e - n.FractionDigits)
  {
    var v := Signed(n) * Pow10(e - n.FractionDigits);
    Number(if v < 0 then -v else v, e, v < 0)
  }

  lemma RescaledRational(n: Number, e: nat)
    requires Holds(n, e)
    ensures Rational(Rescaled(n, e)) == Rational(n)
  {
    hide Pow10;
    var m := Rescaled(n, e);
    ReadRational(m, Signed(n), n.FractionDigits);
  }

  lemma ReadAsRescaled(r: Result<Number>, n: Number, digits: string, e: nat)
    requires Digital(digits) && Worth(digits, 0) == n.Value
    requires ReadAs(r, if n.Negative then "-" else "", digits, n.FractionDigits, e) && digits != ""
    ensures r.Ok? <==> Holds(n, e)
    ensures r.Ok? ==> r.value == Rescaled(n, e)
  {
    hide Worth, Pow10;
    var k := if n.FractionDigits <= e then e - n.FractionDigits else 0;
    NegateProduct(n.Value, Pow10(k));
  }

  /**
   The text of a number is read with any number of fraction digits asked for,
   unless it has more or the number leaves the 64 bits, and as that number.
   */
  lemma DecimalScales(n: Number, e: nat)
    ensures var r := ParseDecimal(NumberString(n), e);
            && (r.Ok? <==> Holds(n, e))
            && (r.Ok? ==> r.value == Rescaled(n, e) && Rational(r.value) == Rational(n))
    ensures Numeral(NumberString(n))
  {
    hide ParseDecimal, Accumulate, NumberString, Decimal, Worth, ReadAs, Rescaled, Holds, Rational;
    var r := ParseDecimal(NumberString(n), e);
    var digits;
    if n.FractionDigits == 0 {
      digits := Decimal(n.Value);
      DecimalDigital(n.Value);
      AccumulateDecimal(n.Value, false);
      PlainReads(if n.Negative then "-" else "", digits, e);
      WholeText(n);
      IntegerRoundTrip(n);
    } else {
      digits := FractionReads(n, e);
      DecimalRoundTrip(n);
    }
    AccumulateWorth(digits, 0);
    ReadAsRescaled(r, n, digits, e);
    if r.Ok? { RescaledRational(n, e); }
  }

  lemma FractionReads(n: Number, e: nat) returns (digits: string)
    requires n.FractionDigits > 0
    ensures Digital(digits) && digits != "" && Accumulate(digits, 10, false, 0) == Ok(n.Value)
    ensures ReadAs(ParseDecimal(NumberString(n), e), if n.Negative then "-" else "", digits, n.FractionDigits, e)
  {
    hide ParseDecimal, Accumulate, NumberString, Worth, ReadAs;
    var sign := if n.Negative then "-" else "";
    var a, b := DecimalParts(n);
    digits := a + b;
    PointedReads(sign, digits, |b|, e);
    var w := sign + digits;
    assert w == (sign + a) + b && w[..|w| - |b|] == sign + a && w[|w| - |b|..] == b;
  }

  lemma WholeText(n: Number)
    requires n.FractionDigits == 0
    ensures NumberString(n) == (if n.Negative then "-" else "") + Decimal(n.Value)
  {
    hide Decimal;
  }

  // ---------------------------------------------------------------- texts that are no decimals

  /** The only number the specification of reading allows. */
  lemma ReadAsOne(r: Result<Number>, sign: string, digits: string, frac: nat, e: Digits, v: Uint64)
    requires Digital(digits) && ReadAs(r, sign, digits, frac, e)
    requires 1 <= e && frac <= e && (digits != "" || frac < e)
    requires v == Worth(digits, 0) * Pow10(e - frac) && Fits(sign, v)
    ensures r == Ok(Number(v, e, sign == "-" && v > 0))
  {
    hide Worth, Pow10;
    NegateProduct(Worth(digits, 0), Pow10(e - frac));
  }

  /** A point before the sign is accepted. */
  lemma PointBeforeSign()
    ensures ParseDecimal(".-5", 2) == Ok(Number(5, 2, true))
  {
    hide ParseDecimal, ReadAs, Worth, Pow10, Pointed, Fits, Plain, Digital, Zeros;
    SignBehind();
    WorthFive();
    PointedReads("-", "5", 2, 2);
    ReadAsOne(ParseDecimal(".-5", 2), "-", "5", 2, 2, 5);
  }

  lemma SignBehind()
    ensures Digital("5") && Plain("-", "5") && Fits("-", 5) && Pointed("-" + "5", 2) == ".-5"
  {
  }

  lemma WorthFive()
    ensures Digital("5") && Worth("5", 0) * Pow10(0) == 5
  {
    assert "5"[1..] == "" && Worth("5", 0) == 5;
  }

  /** And so is a point alone. */
  lemma PointAlone()
    ensures ParseDecimal(".", 2) == Ok(Number(0, 2, false))
  {
    hide ParseDecimal, ReadAs, Pow10;
    assert Worth("", 0) * Pow10(2) == 0;
    PointedReads("", "", 0, 2);
    assert Pointed("" + "", 0) == ".";
    ReadAsOne(ParseDecimal(".", 2), "", "", 0, 2, 0);
  }

  /** A point, 255 zeros and a one are read as one. */
  lemma LongFractionIsOne()
    ensures ParseDecimal("." + Zeros(255) + "1", 1) == Ok(Number(10, 1, false))
  {
    hide ParseDecimal, ReadAs, Worth, Pow10, Pointed, Fits, Plain, Digital, Zeros;
    var digits := Zeros(255) + "1";
    LongOne(255);
    PointedReads("", digits, 256, 1);
    AllBehind(digits);
    assert "." + Zeros(255) + "1" == "." + digits;
    ReadAsOne(ParseDecimal("." + Zeros(255) + "1", 1), "", digits, 0, 1, 10);
  }

  lemma AllBehind(w: string)
    ensures "" + w == w && Pointed(w, |w|) == "." + w
  {
  }

  lemma LongOne(n: nat)
    ensures Digital(Zeros(n) + "1") && Plain("", Zeros(n) + "1")
    ensures Worth(Zeros(n) + "1", 0) * Pow10(1) == 10 && Fits("", 10)
  {
    hide Accumulate, Worth;
    AccumulateZeros(n, "1");
    LastDigit(1, false, 0);
    AccumulateWorth(Zeros(n) + "1", 0);
    assert Pow10(0) == 1;
  }
}
