/** The numbers of pkg/yang/types_builtin.go: a sign, a uint64 and a count of fraction digits. */
module Numbers {
  import opened Wrappers

  const TWO_64 := 0x1_0000_0000_0000_0000
  const TWO_63 := 0x8000_0000_0000_0000

  type Uint64 = x: nat | x < TWO_64
  type Digits = d: nat | d <= 18

  /** A decimal64 has 1 to 18 fraction digits, an integer none. */
  datatype Number = Number(Value: Uint64, FractionDigits: Digits, Negative: bool)

  function Pow10(e: nat): (p: nat)
    ensures p > 0
  {
    if e == 0 then 1 else 10 * Pow10(e - 1)
  }

  lemma {:induction false} Pow10Add(a: nat, b: nat)
    ensures Pow10(a) * Pow10(b) == Pow10(a + b)
    decreases a
  {
    if a > 0 {
      Pow10Add(a - 1, b);
      assert Pow10(a) * Pow10(b) == 10 * (Pow10(a - 1) * Pow10(b));
    } else {
      assert Pow10(a) == 1;
    }
  }

  /** No power of ten the code asks for leaves the 64 bits. */
  lemma Pow10Fits(e: nat)
    requires e <= 18
    ensures Pow10(e) <= Pow10(18) == 1_000_000_000_000_000_000 < TWO_64
  {
    Pow10Add(e, 18 - e);
    assert Pow10(3) == 1000;
    Pow10Add(3, 3);
    Pow10Add(6, 6);
    Pow10Add(12, 6);
    assert Pow10(18) == Pow10(e) * Pow10(18 - e);
    MulAtLeast(Pow10(e), Pow10(18 - e));
  }

  lemma MulAtLeast(a: nat, b: nat)
    requires b > 0
    ensures a <= a * b
  {
    assert a * b == a + a * (b - 1);
  }

  /** The loop of pow10; its 64-bit products never wrap. */
  method ComputePow10(e: Digits) returns (out: Uint64)
    ensures out == Pow10(e)
  {
    out := 1;
    for i := 0 to e
      invariant out == Pow10(i)
    {
      Pow10Fits(i + 1);
      out := out * 10;
    }
  }

  /** The whole part of the absolute value. */
  function Trunc(n: Number): (t: Uint64)
  {
    DivFits(n.Value, Pow10(n.FractionDigits));
    n.Value / Pow10(n.FractionDigits)
  }

  lemma DivFits(v: nat, p: nat)
    requires p > 0
    ensures 0 <= v / p <= v && v / p * p + v % p == v && 0 <= v % p < p
  {
    MulAtLeast(v / p, p);
  }

  /** The fraction to 18 digits; neither product overflows. */
  function Frac(n: Number): (f: Uint64)
    ensures f < Pow10(18)
  {
    hide Pow10, Trunc;
    FracParts(n);
    var i: Uint64 := Trunc(n) * Pow10(n.FractionDigits);
    var rest: Uint64 := n.Value - i;
    rest * Pow10(18 - n.FractionDigits)
  }

  lemma FracParts(n: Number)
    ensures var i := Trunc(n) * Pow10(n.FractionDigits);
            0 <= i <= n.Value && 0 <= (n.Value - i) * Pow10(18 - n.FractionDigits) < Pow10(18) < TWO_64
  {
    hide Pow10;
    DivFits(n.Value, Pow10(n.FractionDigits));
    FracFits(n.Value - Trunc(n) * Pow10(n.FractionDigits), n.FractionDigits);
  }

  lemma FracFits(rest: nat, d: Digits)
    requires rest < Pow10(d)
    ensures rest * Pow10(18 - d) < Pow10(18) < TWO_64
  {
    Pow10Fits(18);
    Pow10Add(d, 18 - d);
    MulLess(rest, Pow10(d), Pow10(18 - d));
  }

  lemma Distribute(a: int, d: int, c: int)
    ensures (a + d) * c == a * c + d * c
  {
  }

  lemma MulLess(a: nat, b: nat, c: nat)
    requires a < b && c > 0
    ensures a * c < b * c
  {
    var d := b - a;
    MulAtLeast(c, d);
    Distribute(a, d, c);
  }

  function Less(n: Number, m: Number): bool {
    if n.Negative && !m.Negative then true
    else if !n.Negative && m.Negative then false
    else
      var nt, mt := Trunc(n), Trunc(m);
      if nt == mt then
        var nf, mf := Frac(n), Frac(m);
        if nf == mf then false
        else if n.Negative then !(nf < mf) else nf < mf
      else if n.Negative then !(nt < mt) else nt < mt
  }

  function Equal(n: Number, m: Number): bool {
    !Less(n, m) && !Less(m, n)
  }

  // ---------------------------------------------------------------- meaning

  /** The number as a multiple of its smallest quantum. */
  function Signed(n: Number): int {
    if n.Negative then -(n.Value as int) else n.Value as int
  }

  /** The rational number denoted. */
  function Rational(n: Number): real {
    Signed(n) as real / Pow10(n.FractionDigits) as real
  }

  predicate NegativeZero(n: Number) {
    n.Negative && n.Value == 0
  }

  /** The absolute value in units of ten to the minus 18. */
  function Scaled(n: Number): nat {
    n.Value * Pow10(18 - n.FractionDigits)
  }

  /** A place on the line where a negative zero comes just before zero. */
  function Place(n: Number): int {
    if NegativeZero(n) then -1 else if n.Negative then -2 * Scaled(n) else 2 * Scaled(n)
  }

  lemma ScaledParts(n: Number)
    ensures Scaled(n) == Trunc(n) * Pow10(18) + Frac(n)
  {
    hide Pow10;
    var p, q := Pow10(n.FractionDigits), Pow10(18 - n.FractionDigits);
    DivFits(n.Value, p);
    Pow10Add(n.FractionDigits, 18 - n.FractionDigits);
    var t := Trunc(n);
    var rest := n.Value - t * p;
    Distribute(t * p, rest, q);
    Associate(t, p, q);
  }

  lemma Associate(a: int, b: int, c: int)
    ensures a * b * c == a * (b * c)
  {
  }

  lemma PartsOrder(t: nat, f: nat, u: nat, g: nat, unit: nat)
    requires f < unit && g < unit
    ensures t * unit + f < u * unit + g <==> t < u || (t == u && f < g)
  {
    if t < u {
      assert u * unit >= (t + 1) * unit == t * unit + unit;
    } else if u < t {
      assert t * unit >= (u + 1) * unit == u * unit + unit;
    }
  }

  lemma ScaledZero(n: Number)
    ensures Scaled(n) == 0 <==> n.Value == 0
  {
    if n.Value > 0 { MulAtLeast(Pow10(18 - n.FractionDigits), n.Value); }
  }

  /** Less orders all numbers of any mix of fraction digits by their places. */
  lemma LessIsPlaceOrder(n: Number, m: Number)
    ensures Less(n, m) <==> Place(n) < Place(m)
  {
    hide Pow10;
    ScaledParts(n);
    ScaledParts(m);
    PartsOrder(Trunc(n), Frac(n), Trunc(m), Frac(m), Pow10(18));
    PartsOrder(Trunc(m), Frac(m), Trunc(n), Frac(n), Pow10(18));
    ScaledZero(n);
    ScaledZero(m);
    hide Trunc, Frac, Scaled;
  }

  /** So it is a strict weak order. */
  lemma LessIsStrictWeakOrder(a: Number, b: Number, c: Number)
    ensures !Less(a, a)
    ensures Less(a, b) && Less(b, c) ==> Less(a, c)
    ensures Equal(a, b) && Equal(b, c) ==> Equal(a, c)
  {
    hide Less;
    LessIsPlaceOrder(a, a);
    LessIsPlaceOrder(a, b);
    LessIsPlaceOrder(b, a);
    LessIsPlaceOrder(b, c);
    LessIsPlaceOrder(c, b);
    LessIsPlaceOrder(a, c);
    LessIsPlaceOrder(c, a);
  }

  function SignedScaled(n: Number): int {
    if n.Negative then -(Scaled(n) as int) else Scaled(n)
  }

  lemma RationalScaled(n: Number)
    ensures Rational(n) == SignedScaled(n) as real / Pow10(18) as real
  {
    hide Pow10;
    var p, q := Pow10(n.FractionDigits), Pow10(18 - n.FractionDigits);
    Pow10Add(n.FractionDigits, 18 - n.FractionDigits);
    var s := Signed(n);
    MulReal(s, q);
    MulReal(p, q);
    NegateProduct(n.Value, q);
    assert s * q == SignedScaled(n);
    SameQuotient(SignedScaled(n) as real, Pow10(18) as real, s as real, p as real, q as real);
  }

  lemma NegateProduct(a: int, b: int)
    ensures (-a) * b == -(a * b)
  {
  }

  lemma MulReal(a: int, b: int)
    ensures (a * b) as real == a as real * b as real
  {
  }

  lemma SameQuotient(x: real, y: real, s: real, p: real, q: real)
    requires p > 0.0 && q > 0.0 && x == s * q && y == p * q && y > 0.0
    ensures x / y == s / p
  {
    var z := s / p;
    assert z * p == s;
    assert z * (p * q) == (z * p) * q;
    assert z * y == x;
  }

  lemma QuotientOrder(a: real, b: real, c: real)
    requires c > 0.0
    ensures a / c < b / c <==> a < b
  {
    var x, y := a / c, b / c;
    assert x * c == a && y * c == b;
    if x < y { assert (y - x) * c > 0.0; }
    if x >= y { assert (x - y) * c >= 0.0; }
  }

  /** Less is the order of the rationals except that a negative zero is below zero. */
  lemma LessIsRationalOrder(n: Number, m: Number)
    ensures (Less(n, m) <==> Rational(n) < Rational(m))
       <==> !(NegativeZero(n) && m.Value == 0 && !m.Negative)
  {
    hide Less, Pow10, Rational, Scaled;
    LessIsPlaceOrder(n, m);
    RationalScaled(n);
    RationalScaled(m);
    ScaledZero(n);
    ScaledZero(m);
    QuotientOrder(SignedScaled(n) as real, SignedScaled(m) as real, Pow10(18) as real);
  }

  // ---------------------------------------------------------------- numbers of one precision

  /** The place of a number among those with as many fraction digits. */
  function Key(n: Number): int {
    if NegativeZero(n) then -1 else 2 * Signed(n)
  }

  lemma LessIsKeyOrder(n: Number, m: Number)
    requires n.FractionDigits == m.FractionDigits
    ensures Less(n, m) <==> Key(n) < Key(m)
  {
    hide Less, Pow10;
    var q := Pow10(18 - n.FractionDigits);
    LessIsPlaceOrder(n, m);
    ScaledZero(n);
    ScaledZero(m);
    if n.Value < m.Value {
      MulLess(n.Value, m.Value, q);
    } else if m.Value < n.Value {
      MulLess(m.Value, n.Value, q);
    }
  }

  /** Adds the smallest quantum without checking overflow: it wraps at 2^64. */
  function AddQuantum(n: Number, i: Uint64): Number {
    if n.Negative then
      if n.Value <= i then n.(Value := i - n.Value, Negative := false)
      else n.(Value := n.Value - i)
    else n.(Value := (n.Value + i) % TWO_64)
  }

  predicate IsMax(n: Number) {
    !n.Negative && n.Value == TWO_64 - 1
  }

  /** One quantum more, except that the largest number wraps to zero. */
  lemma AddOne(n: Number)
    ensures var m := AddQuantum(n, 1);
            && m.FractionDigits == n.FractionDigits && !NegativeZero(m)
            && Signed(m) == if IsMax(n) then 0 else Signed(n) + 1
  {
  }

  /** So many quanta more; past the largest number it wraps. */
  lemma AddQuanta(n: Number, i: Uint64)
    ensures var m := AddQuantum(n, i);
            && m.FractionDigits == n.FractionDigits && (NegativeZero(m) ==> n == m && i == 0)
            && Signed(m) == Signed(n) + i - if Signed(n) + i >= TWO_64 then TWO_64 else 0
  {
  }

  // ---------------------------------------------------------------- Int

  /** The bits of a uint64 read as an int64. */
  function AsInt64(x: Uint64): int {
    if x < TWO_63 then x else x - TWO_64
  }

  /** Two's complement negation. */
  function Negate64(x: int): int
    requires -TWO_63 <= x < TWO_63
  {
    if x == -TWO_63 then x else -x
  }

  /** Number.Int: it checks positive numbers only. */
  function Int(n: Number): Option<int> {
    if n.FractionDigits != 0 then None
    else if n.Negative then Some(Negate64(AsInt64(n.Value)))
    else if n.Value < TWO_63 then Some(AsInt64(n.Value))
    else None
  }

  /**
   Int gives the number or an error, as its comment promises, exactly unless
   the number is an integer below the smallest int64.
   */
  lemma IntIsExact(n: Number)
    ensures (Int(n) == if n.FractionDigits == 0 && -TWO_63 <= Signed(n) < TWO_63 then Some(Signed(n)) else None)
       <==> !(n.FractionDigits == 0 && n.Negative && n.Value > TWO_63)
  {
  }

  /** The smallest integer of all reads as 1. */
  lemma IntWraps()
    ensures Int(Number(TWO_64 - 1, 0, true)) == Some(1)
  {
  }
}
