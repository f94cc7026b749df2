/** What ParseInt (pkg/yang/types_builtin.go) reads: integers in four bases, with underscores between digits. */
module IntegerTexts {
  import opened Numbers
  import opened RangeText
  import opened RangeRoundTrip
  import opened Wrappers

  const LOWER_DIGITS := "0123456789abcdef"
  const UPPER_DIGITS := "0123456789ABCDEF"

  /** `c` is the digit `d` of some base up to sixteen. */
  predicate Shows(c: char, d: nat) {
    d < 16 && (c == LOWER_DIGITS[d] || c == UPPER_DIGITS[d])
  }

  predicate DigitIn(c: char, base: nat) {
    exists d: nat :: d < base && Shows(c, d)
  }

  /** Digits of the base, and underscores. */
  predicate InDigits(s: string, base: nat) {
    forall i :: 0 <= i < |s| ==> s[i] == '_' || DigitIn(s[i], base)
  }

  ghost function DigitOf(c: char, base: nat): (d: nat)
    requires DigitIn(c, base)
    ensures d < base && Shows(c, d)
  {
    var d: nat :| d < base && Shows(c, d);
    d
  }

  /** The value of the digits after digits worth `acc`; underscores count for nothing. */
  ghost function Value(s: string, base: nat, acc: nat): nat
    requires InDigits(s, base)
  {
    if s == "" then acc
    else if s[0] == '_' then Value(s[1..], base, acc)
    else Value(s[1..], base, acc * base + DigitOf(s[0], base))
  }

  /** No underscore is first, unless something stands before the text, or last, or beside another. */
  predicate Spaced(s: string, before: bool) {
    && (s != "" && s[0] == '_' ==> before)
    && (s != "" ==> s[|s| - 1] != '_')
    && forall i :: 0 < i < |s| ==> !(s[i - 1] == '_' && s[i] == '_')
  }

  /** The signs that say which base the digits are in. */
  predicate Prefix(p: string, base: nat) {
    match p
    case "" => base == 10
    case "0" => base == 8
    case "0b" => base == 2
    case "0B" => base == 2
    case "0o" => base == 8
    case "0O" => base == 8
    case "0x" => base == 16
    case "0X" => base == 16
    case _ => false
  }

  lemma ShownDigit(c: char, d: nat)
    requires Shows(c, d)
    ensures Digit(c) == d && c != '_' && !Space(c) && c != '+' && c != '-' && (c == '0' <==> d == 0)
    ensures ('0' <= c <= '9' <==> d < 10) && (d < 8 ==> Lower(c) !in "box")
    ensures '0' <= c <= '9' || 'a' <= Lower(c) <= 'f'
  {
  }

  lemma {:induction false} ValueGrows(s: string, base: nat, acc: nat)
    requires InDigits(s, base) && base > 0
    ensures Value(s, base, acc) >= acc
  {
    if s != "" {
      if s[0] == '_' {
        ValueGrows(s[1..], base, acc);
      } else {
        MulAtLeast(acc, base);
        ValueGrows(s[1..], base, acc * base + DigitOf(s[0], base));
      }
    }
  }

  lemma {:induction false} AccumulateValue(s: string, base: nat, acc: Uint64)
    requires InDigits(s, base) && 0 < base <= 16
    ensures Accumulate(s, base, true, acc) == if Value(s, base, acc) < TWO_64 then Ok(Value(s, base, acc)) else Error
    decreases |s|
  {
    hide Digit;
    if s != "" {
      if s[0] == '_' {
        AccumulateValue(s[1..], base, acc);
      } else {
        var d := DigitOf(s[0], base);
        ShownDigit(s[0], d);
        ValueGrows(s[1..], base, acc * base + d);
        if acc * base + d < TWO_64 { AccumulateValue(s[1..], base, acc * base + d); }
      }
    }
  }

  lemma SpacedTail(s: string)
    requires s != ""
    ensures Spaced(s, true) <==>
              Spaced(s[1..], true) && (s[0] == '_' ==> |s| > 1 && s[1] != '_')
    ensures Spaced(s, false) <==> Spaced(s, true) && s[0] != '_'
  {
    if Spaced(s[1..], true) && (s[0] == '_' ==> |s| > 1 && s[1] != '_') {
      forall i | 0 < i < |s|
        ensures !(s[i - 1] == '_' && s[i] == '_')
      {
        if i > 1 { assert s[1..][i - 2] == s[i - 1] && s[1..][i - 1] == s[i]; }
      }
    }
    if Spaced(s, true) {
      forall i | 0 < i < |s| - 1
        ensures !(s[1..][i - 1] == '_' && s[1..][i] == '_')
      {
        assert s[i] == s[1..][i - 1] && s[i + 1] == s[1..][i];
      }
    }
  }

  /** The check of underscores, after a digit, after an underscore and at the start. */
  lemma {:induction false} UnderscoresSpaced(s: string, base: nat, hex: bool)
    requires InDigits(s, base) && base <= 16 && (hex || base <= 10)
    ensures UnderscoresFrom(s, hex, '0') <==> Spaced(s, true)
    ensures UnderscoresFrom(s, hex, '_') <==> s != "" && s[0] != '_' && Spaced(s, true)
    ensures UnderscoresFrom(s, hex, '^') <==> Spaced(s, false)
    decreases |s|
  {
    hide Spaced;
    if s != "" {
      SpacedTail(s);
      if |s| > 1 { assert s[1..][0] == s[1]; }
      UnderscoresSpaced(s[1..], base, hex);
      if s[0] != '_' { ShownDigit(s[0], DigitOf(s[0], base)); }
    } else {
      EmptySpaced();
    }
  }

  lemma EmptySpaced()
    ensures Spaced("", true) && Spaced("", false)
  {
  }

  lemma NoneSpaced(s: string, before: bool)
    requires '_' !in s
    ensures Spaced(s, before)
  {
  }

  /** Which texts name the base in front of the digits: decimal digits do not start with a zero. */
  predicate Begins(p: string, ds: string, base: nat) {
    && Prefix(p, base) && InDigits(ds, base)
    && (p == "" ==> ds != "" && ds[0] != '0')
    && (|p| == 2 ==> ds != "")
  }

  lemma UintReads(p: string, ds: string, base: nat)
    requires Begins(p, ds, base)
    ensures ParseUintAnyBase(p + ds)
         == if Spaced(ds, p != "") && Value(ds, base, 0) < TWO_64 then Ok(Value(ds, base, 0)) else Error
  {
    hide Accumulate, Value, Spaced, UnderscoresFrom, InDigits;
    AccumulateValue(ds, base, 0);
    UnderscoresSpaced(ds, base, base == 16);
    if '_' !in ds { NoneSpaced(ds, p != ""); }
    var s := p + ds;
    assert '_' in s <==> '_' in ds;
    if p == "" {
      assert s == ds;
      FirstDigit(ds, base);
    } else if p == "0" {
      assert s[1..] == ds && s[0] == '0';
      AfterZero(ds);
    } else {
      assert s[0] == '0' && s[1] == p[1] && s[2..] == ds;
    }
  }

  lemma FirstDigit(ds: string, base: nat)
    requires InDigits(ds, base) && base <= 10 && ds != "" && ds[0] != '0'
    ensures UnderscoresOk(ds) == UnderscoresFrom(ds, false, '^')
  {
  }

  lemma AfterZero(ds: string)
    requires InDigits(ds, 8)
    ensures UnderscoresOk("0" + ds) == UnderscoresFrom(ds, false, '0')
    ensures ds != "" ==> Lower(ds[0]) !in "box"
  {
    var s := "0" + ds;
    assert s[1..] == ds;
    if ds != "" && ds[0] != '_' { ShownDigit(ds[0], DigitOf(ds[0], 8)); }
  }

  /** The value of an integer is that of its digits in the base its prefix names, with the sign it has. */
  lemma IntegerReads(sign: string, p: string, ds: string, base: nat)
    requires sign in {"", "+", "-"} && Begins(p, ds, base)
    ensures var v := Value(ds, base, 0);
            ParseInt(sign + p + ds) ==
            if Spaced(ds, p != "") && v < TWO_64 then Ok(Number(v, 0, sign == "-")) else Error
  {
    hide ParseUintAnyBase, Value, Spaced, ParseInt, Prefix, InDigits, Space;
    UintReads(p, ds, base);
    SolidEnds(p, ds, base);
    SignedReads(sign, p + ds);
    assert sign + (p + ds) == sign + p + ds;
  }

  lemma SignedReads(sign: string, t: string)
    requires sign in {"", "+", "-"}
    requires t != "" && t[0] != '+' && t[0] != '-' && !Space(t[0]) && !Space(t[|t| - 1])
    ensures var r := ParseUintAnyBase(t);
            ParseInt(sign + t) == if r.Error? then Error else Ok(Number(r.value, 0, sign == "-"))
  {
    hide ParseUintAnyBase, TrimSpace;
    var s := sign + t;
    assert s[|s| - 1] == t[|t| - 1];
    if sign == "" {
      assert s == t;
    } else {
      assert s[0] == sign[0] && s[1..] == t;
    }
    TrimNothing(s);
  }

  lemma SolidEnds(p: string, ds: string, base: nat)
    requires Begins(p, ds, base)
    ensures var t := p + ds; t != "" && t[0] != '+' && t[0] != '-' && !Space(t[0]) && !Space(t[|t| - 1])
  {
    var t := p + ds;
    if p == "" { assert t == ds; SolidDigit(ds, 0, base); }
    if ds != "" { SolidDigit(ds, |ds| - 1, base); assert t[|t| - 1] == ds[|ds| - 1]; }
  }

  lemma SolidDigit(s: string, i: nat, base: nat)
    requires InDigits(s, base) && base <= 16 && i < |s|
    ensures s[i] != '+' && s[i] != '-' && !Space(s[i])
  {
    if s[i] != '_' { ShownDigit(s[i], DigitOf(s[i], base)); }
  }

  // ---------------------------------------------------------------- and no other texts

  lemma HasDigit(c: char, base: nat)
    requires base <= 16 && Digit(c) < base
    ensures DigitIn(c, base)
  {
    assert Shows(c, Digit(c));
  }

  lemma {:induction false} AccumulatedIn(s: string, base: nat, acc: Uint64)
    requires base <= 16 && Accumulate(s, base, true, acc).Ok?
    ensures InDigits(s, base)
    decreases |s|
  {
    hide Digit, DigitIn;
    if s != "" {
      if s[0] == '_' {
        AccumulatedIn(s[1..], base, acc);
      } else {
        HasDigit(s[0], base);
        AccumulatedIn(s[1..], base, acc * base + Digit(s[0]));
      }
      assert forall i :: 1 <= i < |s| ==> s[i] == s[1..][i - 1];
    }
  }

  lemma UintForm(s: string) returns (p: string, ds: string, base: nat)
    requires ParseUintAnyBase(s).Ok?
    ensures Begins(p, ds, base) && s == p + ds
  {
    hide Accumulate, UnderscoresOk;
    if s[0] != '0' {
      p, ds, base := "", s, 10;
    } else if |s| >= 3 && Lower(s[1]) in "box" {
      p, ds := s[..2], s[2..];
      base := if Lower(s[1]) == 'b' then 2 else if Lower(s[1]) == 'o' then 8 else 16;
    } else {
      p, ds, base := "0", s[1..], 8;
    }
    AccumulatedIn(ds, base, 0);
    assert s == p + ds;
    if |p| == 2 { PrefixIs(p, base); }
  }

  lemma PrefixIs(p: string, base: nat)
    requires |p| == 2 && p[0] == '0' && Lower(p[1]) in "box"
    requires base == if Lower(p[1]) == 'b' then 2 else if Lower(p[1]) == 'o' then 8 else 16
    ensures Prefix(p, base)
  {
    assert p == [p[0], p[1]];
    assert p[1] in "boxBOX";
  }

  /** A text that is read is such an integer, with white space around it. */
  lemma IntegerForm(text: string) returns (sign: string, p: string, ds: string, base: nat)
    requires ParseInt(text).Ok?
    ensures sign in {"", "+", "-"} && Begins(p, ds, base) && TrimSpace(text) == sign + p + ds
  {
    hide ParseUintAnyBase, TrimSpace;
    var s := TrimSpace(text);
    sign := if s[0] == '+' then "+" else if s[0] == '-' then "-" else "";
    p, ds, base := UintForm(if sign == "" then s else s[1..]);
    assert s == sign + (p + ds) == sign + p + ds;
  }
}
