/** Reading and writing numbers and ranges as YANG text (pkg/yang/types_builtin.go). */
module RangeText {
  import opened Text
  import opened Numbers
  import opened Ranges
  import opened RangeHeads
  import opened Wrappers

  // ---------------------------------------------------------------- the strconv and strings calls

  predicate Space(c: char) {
    c == ' ' || ('\t' <= c <= '\r') || c == '\U{85}' || c == '\U{A0}'
  }

  function TrimLeft(s: string): string {
    if s != "" && Space(s[0]) then TrimLeft(s[1..]) else s
  }

  function TrimRight(s: string): string {
    if s != "" && Space(s[|s| - 1]) then TrimRight(s[..|s| - 1]) else s
  }

  function TrimSpace(s: string): string {
    TrimRight(TrimLeft(s))
  }

  function Lower(c: char): char {
    if 'A' <= c <= 'Z' then c - 'A' + 'a' else c
  }

  /** The value of a digit in any base, or 36 for a character that is none. */
  function Digit(c: char): nat {
    if '0' <= c <= '9' then (c - '0') as nat
    else if 'a' <= Lower(c) <= 'z' then (Lower(c) - 'a') as nat + 10
    else 36
  }

  /** Accumulates the digits of `s`; `under` allows underscores between them. */
  function Accumulate(s: string, base: nat, under: bool, acc: Uint64): Result<Uint64> {
    if s == "" then Ok(acc)
    else if under && s[0] == '_' then Accumulate(s[1..], base, under, acc)
    else
      var d := Digit(s[0]);
      if d >= base || acc * base + d >= TWO_64 then Error
      else Accumulate(s[1..], base, under, acc * base + d)
  }

  /** Underscores may only separate digits; `saw` is what came last. */
  function UnderscoresFrom(s: string, hex: bool, saw: char): bool {
    if s == "" then saw != '_'
    else if '0' <= s[0] <= '9' || (hex && 'a' <= Lower(s[0]) <= 'f') then UnderscoresFrom(s[1..], hex, '0')
    else if s[0] == '_' then saw == '0' && UnderscoresFrom(s[1..], hex, '_')
    else saw != '_' && UnderscoresFrom(s[1..], hex, '!')
  }

  function UnderscoresOk(s: string): bool {
    if |s| >= 2 && s[0] == '0' && Lower(s[1]) in "box"
    then UnderscoresFrom(s[2..], Lower(s[1]) == 'x', '0')
    else UnderscoresFrom(s, false, '^')
  }

  /** strconv.ParseUint(s, 0, 64): the base comes from the prefix. */
  function ParseUintAnyBase(s: string): Result<Uint64> {
    if s == "" then Error
    else
      var value :=
        if s[0] != '0' then Accumulate(s, 10, true, 0)
        else if |s| >= 3 && Lower(s[1]) == 'b' then Accumulate(s[2..], 2, true, 0)
        else if |s| >= 3 && Lower(s[1]) == 'o' then Accumulate(s[2..], 8, true, 0)
        else if |s| >= 3 && Lower(s[1]) == 'x' then Accumulate(s[2..], 16, true, 0)
        else Accumulate(s[1..], 8, true, 0);
      if '_' in s && !UnderscoresOk(s) then Error else value
  }

  /** strconv.ParseInt(s, 10, 64). */
  function ParseInt64(s: string): (r: Result<int>)
    ensures r.Ok? ==> -TWO_63 <= r.value < TWO_63
  {
    var neg := s != "" && s[0] == '-';
    var digits := if s != "" && (s[0] == '-' || s[0] == '+') then s[1..] else s;
    if digits == "" then Error
    else
      match Accumulate(digits, 10, false, 0)
      case Error => Error
      case Ok(v) =>
        if (!neg && v >= TWO_63) || (neg && v > TWO_63) then Error
        else Ok(if neg then -(v as int) else v as int)
  }

  /** strconv.FormatUint(v, 10). */
  function Decimal(v: nat): (s: string)
    ensures s != ""
  {
    var last := [('0' as int + v % 10) as char];
    if v < 10 then last else Decimal(v / 10) + last
  }

  // ---------------------------------------------------------------- numbers

  function Zeros(n: nat): (s: string)
    ensures |s| == n
  {
    seq(n, _ => '0')
  }

  /** Number.String. */
  function NumberString(n: Number): string {
    var digits := Decimal(n.Value);
    var fd := n.FractionDigits;
    var out :=
      if fd == 0 then digits
      else
        var ofd := |digits| - fd;
        var padded := if ofd <= 0 then Zeros(1 - ofd) + digits else digits;
        var point := if ofd <= 0 then 1 else ofd;
        padded[..point] + "." + padded[point..];
    if n.Negative then "-" + out else out
  }

  function ParseInt(text: string): Result<Number> {
    var s := TrimSpace(text);
    if s == "" || s == "+" || s == "-" then Error
    else
      var ns := if s[0] == '+' || s[0] == '-' then s[1..] else s;
      match ParseUintAnyBase(ns)
      case Error => Error
      case Ok(v) => Ok(Number(v, 0, s[0] == '-'))
  }

  /** decimalValueFromString; the digit count after the point is taken as a uint8. */
  function DecimalValue(s: string, required: nat): Result<Number> {
    if required > 18 || required < 1 then Error
    else
      var dx := IndexOf(s, ".");
      DecimalFacts(s);
      var fracDig := if dx >= 0 then (|s| - 1 - dx) % 256 else 0;
      var digits := if dx >= 0 then s[..dx] + s[dx + 1..] else s;
      if fracDig > required then Error
      else
        match ParseInt64(digits + Zeros(required - fracDig))
        case Error => Error
        case Ok(v) =>
          Ok(Number(if v < 0 then -v else v, required, v < 0))
  }

  lemma DecimalFacts(s: string)
    ensures IndexOf(s, ".") < 0 || IndexOf(s, ".") + 1 <= |s|
  {
  }

  function ParseDecimal(text: string, required: nat): Result<Number> {
    var s := TrimSpace(text);
    if s == "" || s == "+" || s == "-" then Error else DecimalValue(s, required)
  }

  // ---------------------------------------------------------------- ranges

  function RangeString(x: YRange): string {
    if Equal(x.Min, x.Max) then NumberString(x.Min)
    else NumberString(x.Min) + ".." + NumberString(x.Max)
  }

  function RangeStrings(r: YangRange): (s: seq<string>)
    ensures |s| == |r|
  {
    seq(|r|, i requires 0 <= i < |r| => RangeString(r[i]))
  }

  /** YangRange.String. */
  function RangesString(r: YangRange): string {
    Join(RangeStrings(r), "|")
  }

  /** strings.Split on "..". */
  function SplitDots(s: string): (parts: seq<string>)
    ensures parts != []
    decreases |s|
  {
    var x := IndexOf(s, "..");
    if x < 0 then [s] else [s[..x]] + SplitDots(s[x + 2..])
  }

  /** One bound of a range; min and max are those of the parent `y`. */
  function ParseBound(y: YangRange, s: string, decimal: bool, fd: Digits): Result<Number> {
    if s == "max" then
      if y == [] then Error else Ok(y[|y| - 1].Max.(FractionDigits := fd))
    else if s == "min" then
      if y == [] then Error else Ok(y[0].Min.(FractionDigits := fd))
    else if decimal then ParseDecimal(s, fd)
    else ParseInt(s)
  }

  /** One part between pipes. */
  function ParsePart(y: YangRange, s: string, decimal: bool, fd: Digits): Result<YRange> {
    var parts := SplitDots(s);
    var min := ParseBound(y, TrimSpace(parts[0]), decimal, fd);
    if min.Error? || |parts| > 2 then Error
    else
      var max := if |parts| == 1 then min else ParseBound(y, TrimSpace(parts[1]), decimal, fd);
      if max.Error? || Numbers.Less(max.value, min.value) then Error
      else Ok(YRange(min.value, max.value))
  }

  function ParseParts(y: YangRange, parts: seq<string>, decimal: bool, fd: Digits): Result<YangRange> {
    if parts == [] then Ok([])
    else
      var first := ParsePart(y, parts[0], decimal, fd);
      if first.Error? then Error
      else
        var rest := ParseParts(y, parts[1..], decimal, fd);
        if rest.Error? then Error else Ok([first.value] + rest.value)
  }

  function ParseChildRanges(y: YangRange, s: string, decimal: bool, fd: Digits): Result<YangRange> {
    var parts := ParseParts(y, Split(s, '|'), decimal, fd);
    if parts.Error? then Error
    else
      var r := CoalesceSpec(Sort(parts.value));
      if !ContainsSpec(y, r) || !ValidateSpec(r) then Error else Ok(r)
  }

  /** Ranges of integers, and of decimals with `fd` fraction digits. */
  function ParseRangesInt(s: string): Result<YangRange> {
    ParseChildRanges([], s, false, 0)
  }

  function ParseRangesDecimal(s: string, fd: Digits): Result<YangRange> {
    ParseChildRanges([], s, true, fd)
  }

  /** parseChildRanges as a loop over the parts that fills `r`. */
  method ComputeChildRanges(y: YangRange, s: string, decimal: bool, fd: Digits) returns (res: Result<YangRange>)
    ensures res == ParseChildRanges(y, s, decimal, fd)
  {
    hide ParsePart, Split, Sort, CoalesceSpec, ContainsSpec, ValidateSpec;
    var parts := Split(s, '|');
    ghost var whole := ParseParts(y, parts, decimal, fd);
    var r: YangRange := [];
    assert parts[0..] == parts;
    if whole.Ok? { assert r + whole.value == whole.value; }
    for i := 0 to |parts|
      invariant |r| == i
      invariant var rest := ParseParts(y, parts[i..], decimal, fd);
                if rest.Error? then whole.Error? else whole == Ok(r + rest.value)
    {
      assert parts[i..][0] == parts[i] && parts[i..][1..] == parts[i + 1..];
      var x := ParsePart(y, parts[i], decimal, fd);
      if x.Error? {
        return Error;
      }
      ghost var rest := ParseParts(y, parts[i + 1..], decimal, fd);
      if rest.Ok? { assert r + ([x.value] + rest.value) == (r + [x.value]) + rest.value; }
      r := r + [x.value];
    }
    assert parts[|parts|..] == [] && r + [] == r;
    r := Sort(r);
    r := Coalesce(r);
    var within := Contains(y, r);
    if !within {
      return Error;
    }
    var ok := Validate(r);
    return if ok then Ok(r) else Error;
  }

  // ---------------------------------------------------------------- what parsing a restriction means

  lemma BoundDigits(y: YangRange, s: string, decimal: bool, fd: Digits)
    requires decimal || fd == 0
    ensures var n := ParseBound(y, s, decimal, fd); n.Ok? ==> n.value.FractionDigits == fd
  {
    hide TrimSpace, IndexOf, ParseInt64, ParseUintAnyBase;
  }

  /** The parts as they are written are valid ranges of the wanted precision. */
  lemma {:induction false} PartsUniform(y: YangRange, parts: seq<string>, decimal: bool, fd: Digits)
    requires decimal || fd == 0
    requires ParseParts(y, parts, decimal, fd).Ok?
    ensures var p := ParseParts(y, parts, decimal, fd).value; Uniform(p, fd) && AllValid(p) && |p| == |parts|
  {
    hide ParseBound, SplitDots, TrimSpace, Numbers.Less;
    if parts != [] {
      PartsUniform(y, parts[1..], decimal, fd);
      var ps := SplitDots(parts[0]);
      BoundDigits(y, TrimSpace(ps[0]), decimal, fd);
      if |ps| > 1 { BoundDigits(y, TrimSpace(ps[1]), decimal, fd); }
    }
  }

  /** The two-pointer walk never accepts a range that no range of `r` covers. */
  lemma {:induction false} ContainsFromSound(r: YangRange, ri: nat, s: YangRange, fd: Digits)
    requires ri < |r| && Uniform(r, fd) && Uniform(s, fd)
    requires ContainsFrom(r, ri, s)
    ensures forall i :: 0 <= i < |s| ==> Covered(s[i], r)
    decreases |s|, |r| - ri
  {
    hide Numbers.Less;
    if s != [] {
      LessIsKeyOrder(r[ri].Max, s[0].Min);
      LessIsKeyOrder(s[0].Min, r[ri].Min);
      LessIsKeyOrder(r[ri].Max, s[0].Max);
      if Numbers.Less(r[ri].Max, s[0].Min) {
        ContainsFromSound(r, ri + 1, s, fd);
      } else {
        assert Within(s[0], r[ri]);
        ContainsFromSound(r, ri, s[1..], fd);
        CoveredCons(r, s);
      }
    }
  }

  lemma SameMultisetMembers(a: YangRange, b: YangRange)
    requires multiset(a) == multiset(b)
    ensures SameValues(a, b) && (AllValid(a) ==> AllValid(b))
  {
    hide In, Valid;
    forall v
      ensures Member(v, a) <==> Member(v, b)
    {
      if i :| 0 <= i < |a| && In(v, a[i]) {
        assert a[i] in multiset(b);
      }
      if i :| 0 <= i < |b| && In(v, b[i]) {
        assert b[i] in multiset(a);
      }
    }
    if AllValid(a) {
      forall i | 0 <= i < |b|
        ensures Valid(b[i])
      {
        assert b[i] in multiset(a);
      }
    }
  }

  /**
   A restriction that is accepted means the union of its parts, only narrows
   the parent, and is in coalesced form exactly unless one of its parts
   follows, above zero, a part that ends at 2^64-1.
   */
  lemma RestrictionNarrows(y: YangRange, s: string, decimal: bool, fd: Digits)
    requires decimal || fd == 0
    requires Uniform(y, fd)
    requires ParseChildRanges(y, s, decimal, fd).Ok?
    ensures var parts := ParseParts(y, Split(s, '|'), decimal, fd);
            var r := ParseChildRanges(y, s, decimal, fd).value;
            && parts.Ok? && Uniform(r, fd)
            && SameValues(r, parts.value)
            && (y != [] ==> Subset(r, y))
            && (Coalesced(r) <==> TopFree(Sort(parts.value)))
  {
    hide ParseParts, Split, Sort, CoalesceSpec, ContainsFrom, ValidateSpec;
    hide Coalesced, TopFree, Uniform, Member, AllValid, IsSorted;
    var p := ParseParts(y, Split(s, '|'), decimal, fd).value;
    PartsUniform(y, Split(s, '|'), decimal, fd);
    SortSorts(p, fd);
    var sorted := Sort(p);
    SameMultisetMembers(p, sorted);
    CoalesceKeepsValues(sorted, fd);
    CoalesceIsNormal(sorted, fd);
    var r := CoalesceSpec(sorted);
    if y != [] && r != [] {
      ContainsFromSound(y, 0, r, fd);
      CoveredIsSubset(y, r);
    }
    if r == [] {
      assert forall v :: !Member(v, r) by { NoMembers(); }
    }
  }

  lemma NoMembers()
    ensures forall v :: !Member(v, [])
  {
  }

  /** Coalescing keeps the lower bounds in order, also around a negative zero. */
  lemma {:induction false} CoalesceFromOrdered(done: YangRange, rest: YangRange, fd: Digits)
    requires done != [] && Uniform(done, fd) && Uniform(rest, fd)
    requires Ordered(done) && Ordered(rest)
    requires rest != [] ==> Key(done[|done| - 1].Min) <= Key(rest[0].Min)
    ensures Ordered(CoalesceFrom(done, rest))
    decreases rest
  {
    hide Numbers.Less, StartsAfter, Key;
    if rest != [] {
      LessIsKeyOrder(done[|done| - 1].Max, rest[0].Max);
      CoalesceFromOrdered(Extend(done, rest[0]), rest[1..], fd);
    }
  }

  lemma SortedIsOrdered(r: YangRange, fd: Digits)
    requires Uniform(r, fd) && IsSorted(r) && AllValid(r)
    ensures Ordered(r)
  {
    hide Before, Valid, Key;
    forall i | 0 <= i < |r|
      ensures Key(r[i].Min) <= Key(r[i].Max)
    {
      ValidSigned(r[i]);
    }
    forall i | 0 < i < |r|
      ensures Key(r[i - 1].Min) <= Key(r[i].Min)
    {
      assert Uniform([r[i], r[i - 1]], fd);
      BeforeMeans(r[i], r[i - 1]);
    }
  }

  lemma CoalesceOrdered(r: YangRange, fd: Digits)
    requires Uniform(r, fd) && IsSorted(r) && AllValid(r)
    ensures Ordered(CoalesceSpec(r)) && IsSorted(CoalesceSpec(r))
  {
    hide CoalesceFrom, Before, Valid, Key, AtMost;
    SortedIsOrdered(r, fd);
    if |r| >= 2 {
      CoalesceFromOrdered([r[0]], r[1..], fd);
      SortedFirst(r, 1, fd);
      assert IsSorted(r[1..]) by {
        assert forall i :: 0 < i < |r[1..]| ==> r[1..][i] == r[i + 1] && r[1..][i - 1] == r[i];
      }
      CoalesceFromSorted([r[0]], r[1..], fd);
    }
  }

  /** And it keeps the list sorted. */
  lemma {:induction false} CoalesceFromSorted(done: YangRange, rest: YangRange, fd: Digits)
    requires done != [] && Uniform(done, fd) && Uniform(rest, fd)
    requires IsSorted(done) && IsSorted(rest)
    requires rest != [] ==> AtMost(done[|done| - 1], rest[0])
    ensures IsSorted(CoalesceFrom(done, rest))
    decreases rest
  {
    hide Before, AtMost, Key, Numbers.Less, StartsAfter, Extend;
    if rest != [] {
      var tail := rest[1..];
      assert forall i :: 0 <= i < |tail| ==> tail[i] == rest[i + 1];
      if tail != [] { SortedFirst(rest, 1, fd); }
      ExtendSorted(done, rest[0], fd);
      if tail != [] { ExtendAtMost(done, rest[0], tail[0], fd); }
      CoalesceFromSorted(Extend(done, rest[0]), tail, fd);
    }
  }

  lemma ExtendSorted(done: YangRange, x: YRange, fd: Digits)
    requires done != [] && Uniform(done, fd) && Uniform([x], fd) && IsSorted(done) && AtMost(done[|done| - 1], x)
    ensures IsSorted(Extend(done, x)) && Uniform(Extend(done, x), fd)
  {
    hide Before, Numbers.Less, StartsAfter;
    assert [x][0] == x;
    var e, n := Extend(done, x), |done| - 1;
    LessIsKeyOrder(done[n].Max, x.Max);
    forall i | 0 < i < |e|
      ensures !Before(e[i], e[i - 1])
    {
      BeforeMeans(e[i], e[i - 1]);
      if i <= n {
        assert !Before(done[i], done[i - 1]);
        BeforeMeans(done[i], done[i - 1]);
      }
    }
  }

  lemma ExtendAtMost(done: YangRange, x: YRange, y: YRange, fd: Digits)
    requires done != [] && Uniform(done, fd) && Uniform([x], fd)
    requires AtMost(done[|done| - 1], x) && AtMost(x, y)
    ensures var e := Extend(done, x); AtMost(e[|e| - 1], y)
  {
    hide Numbers.Less, StartsAfter;
    assert [x][0] == x;
    LessIsKeyOrder(done[|done| - 1].Max, x.Max);
  }

  /** Some part after the first starts below the end of the first, which is what Validate looks for. */
  predicate StartsBelowFirst(r: YangRange) {
    exists i :: 0 < i < |r| && Numbers.Less(r[i].Min, r[0].Max)
  }

  /**
   A restriction is accepted exactly when its parts can be read, their values
   are values of the parent, no bounds differ in the sign of zero alone, and
   Validate finds no overlap with the first of the coalesced parts. The parent
   is any list that coalescing gives.
   */
  lemma RestrictionAccepted(y: YangRange, s: string, decimal: bool, fd: Digits)
    requires decimal || fd == 0
    requires Uniform(y, fd) && Headed(y)
    ensures var parts := ParseParts(y, Split(s, '|'), decimal, fd);
            ParseChildRanges(y, s, decimal, fd).Ok? <==>
              && parts.Ok?
              && var r := CoalesceSpec(Sort(parts.value));
                 && (y == [] || (Subset(parts.value, y) && !ZeroClash(Head(y), r)))
                 && !StartsBelowFirst(r)
  {
    hide ParseParts, Split, Sort, CoalesceSpec, ContainsSpec, Coalesced, Member,
         AllValid, IsSorted, Ordered, Valid, ZeroClash, Numbers.Less;
    if ParseParts(y, Split(s, '|'), decimal, fd).Ok? {
      var p := ParseParts(y, Split(s, '|'), decimal, fd).value;
      PartsUniform(y, Split(s, '|'), decimal, fd);
      SortSorts(p, fd);
      var sorted := Sort(p);
      SameMultisetMembers(p, sorted);
      CoalesceKeepsValues(sorted, fd);
      CoalesceOrdered(sorted, fd);
      var r := CoalesceSpec(sorted);
      FirstValid(r, fd);
      AnyReceiver(y, r);
      if y != [] {
        HeadEnds(y);
        HeadHolds(y);
        ContainsHead(y, r, fd);
        ContainsIsExact(Head(y), r, fd);
      }
    }
  }

  /** What is accepted can be the parent of another restriction. */
  lemma RestrictionHeaded(y: YangRange, s: string, decimal: bool, fd: Digits)
    requires decimal || fd == 0
    requires ParseChildRanges(y, s, decimal, fd).Ok?
    ensures Headed(ParseChildRanges(y, s, decimal, fd).value)
  {
    hide ParseParts, Split, Sort, CoalesceSpec, ContainsSpec, ValidateSpec, Headed, Uniform, AllValid, IsSorted;
    var p := ParseParts(y, Split(s, '|'), decimal, fd).value;
    PartsUniform(y, Split(s, '|'), decimal, fd);
    SortSorts(p, fd);
    SameMultisetMembers(p, Sort(p));
    CoalesceHeaded(Sort(p), fd);
  }

  /** Where no part above zero follows one that ends at 2^64-1, Validate finds nothing. */
  lemma NothingBelowFirst(p: YangRange, fd: Digits)
    requires Uniform(p, fd) && AllValid(p) && TopFree(Sort(p))
    ensures !StartsBelowFirst(CoalesceSpec(Sort(p)))
  {
    hide Sort, CoalesceSpec, Coalesced, Uniform, AllValid, IsSorted, Ordered, Valid, TopFree, Numbers.Less;
    SortSorts(p, fd);
    SameMultisetMembers(p, Sort(p));
    CoalesceIsNormal(Sort(p), fd);
    CoalesceKeepsValues(Sort(p), fd);
    CoalesceOrdered(Sort(p), fd);
    FirstValid(CoalesceSpec(Sort(p)), fd);
    CoalescedValidates(CoalesceSpec(Sort(p)), fd);
  }

  lemma AnyReceiver(y: YangRange, r: YangRange)
    ensures y == [] ==> ContainsSpec(y, r)
  {
  }

  lemma FirstValid(r: YangRange, fd: Digits)
    requires Uniform(r, fd) && Ordered(r)
    ensures r != [] ==> Valid(r[0])
  {
    hide Numbers.Less, Key;
    if r != [] { LessIsKeyOrder(r[0].Max, r[0].Min); }
  }
}
