/** The range algebra of pkg/yang/types_builtin.go and the value sets it computes with. */
module Ranges {
  import opened Numbers

  /** A single range of consecutive numbers, inclusive. */
  datatype YRange = YRange(Min: Number, Max: Number)

  type YangRange = seq<YRange>

  predicate Valid(x: YRange) {
    !Numbers.Less(x.Max, x.Min)
  }

  predicate RangeEqual(x: YRange, y: YRange) {
    Equal(x.Min, y.Min) && Equal(x.Max, y.Max)
  }

  /** The order Sort uses. */
  predicate Before(x: YRange, y: YRange) {
    if Numbers.Less(x.Min, y.Min) then true
    else if Numbers.Less(y.Min, x.Min) then false
    else Numbers.Less(x.Max, y.Max)
  }

  predicate IsSorted(r: YangRange) {
    forall i :: 0 < i < |r| ==> !Before(r[i], r[i - 1])
  }

  // ---------------------------------------------------------------- meaning

  /** All bounds have `fd` fraction digits. */
  predicate Uniform(r: YangRange, fd: Digits) {
    forall i :: 0 <= i < |r| ==> r[i].Min.FractionDigits == fd && r[i].Max.FractionDigits == fd
  }

  /** `v` quanta is a value of `x`. */
  predicate In(v: int, x: YRange) {
    Signed(x.Min) <= v <= Signed(x.Max)
  }

  /** `v` quanta is a value of one of the ranges. */
  predicate Member(v: int, r: YangRange) {
    exists i :: 0 <= i < |r| && In(v, r[i])
  }

  ghost predicate SameValues(r: YangRange, s: YangRange) {
    forall v :: Member(v, r) <==> Member(v, s)
  }

  ghost predicate Subset(s: YangRange, r: YangRange) {
    forall v :: Member(v, s) ==> Member(v, r)
  }

  predicate AllValid(r: YangRange) {
    forall i :: 0 <= i < |r| ==> Valid(r[i])
  }

  /** Bounds in order, and at least one missing quantum between neighbours. */
  predicate Coalesced(r: YangRange) {
    && (forall i :: 0 <= i < |r| ==> Signed(r[i].Min) <= Signed(r[i].Max))
    && (forall i :: 0 < i < |r| ==> Signed(r[i - 1].Max) + 1 < Signed(r[i].Min))
  }

  lemma {:induction false} CoalescedApart(r: YangRange, i: nat, j: nat)
    requires Coalesced(r) && i < j < |r|
    ensures Signed(r[i].Max) + 1 < Signed(r[j].Min)
    decreases j
  {
    if i < j - 1 { CoalescedApart(r, i, j - 1); }
  }

  lemma ValidSigned(x: YRange)
    requires x.Min.FractionDigits == x.Max.FractionDigits && Valid(x)
    ensures Key(x.Min) <= Key(x.Max) && Signed(x.Min) <= Signed(x.Max)
  {
    hide Numbers.Less;
    LessIsKeyOrder(x.Max, x.Min);
  }

  // ---------------------------------------------------------------- coalesce

  /** Whether `x` starts after `last` with a gap, as the code decides it. */
  predicate StartsAfter(last: YRange, x: YRange) {
    Numbers.Less(AddQuantum(last.Max, 1), x.Min)
  }

  /** `done` with `x` merged into its last range or appended. */
  function Extend(done: YangRange, x: YRange): (r: YangRange)
    requires done != []
    ensures r != []
  {
    var n := |done| - 1;
    if StartsAfter(done[n], x) then done + [x]
    else if Numbers.Less(done[n].Max, x.Max) then done[n := done[n].(Max := x.Max)]
    else done
  }

  function CoalesceFrom(done: YangRange, rest: YangRange): YangRange
    requires done != []
    decreases rest
  {
    if rest == [] then done else CoalesceFrom(Extend(done, rest[0]), rest[1..])
  }

  function CoalesceSpec(r: YangRange): YangRange {
    if |r| < 2 then r else CoalesceFrom([r[0]], r[1..])
  }

  /** Coalesces `r`, which should be sorted, into as few ranges as possible. */
  method Coalesce(r: YangRange) returns (c: YangRange)
    ensures c == CoalesceSpec(r)
  {
    hide Numbers.Less, StartsAfter, AddQuantum;
    if |r| < 2 {
      return r;
    }
    var cr := new YRange[|r|](_ => r[0]);
    var i := 0;
    assert cr[..1] == [r[0]];
    for k := 1 to |r|
      invariant 0 <= i < k
      invariant CoalesceFrom(cr[..i + 1], r[k..]) == CoalesceSpec(r)
    {
      ghost var done := cr[..i + 1];
      var r1 := r[k];
      assert r[k..][0] == r1 && r[k..][1..] == r[k + 1..];
      if StartsAfter(cr[i], r1) {
        i := i + 1;
        cr[i] := r1;
        assert cr[..i + 1] == done + [r1];
      } else if Numbers.Less(cr[i].Max, r1.Max) {
        cr[i] := cr[i].(Max := r1.Max);
        assert cr[..i + 1] == done[i := done[i].(Max := r1.Max)];
      }
      assert cr[..i + 1] == Extend(done, r1);
    }
    assert r[|r|..] == [];
    return cr[..i + 1];
  }

  /** The gap test in signed values; at the top of the 64 bits it compares with zero. */
  lemma StartsAfterMeans(last: YRange, x: YRange)
    requires last.Max.FractionDigits == x.Min.FractionDigits
    ensures StartsAfter(last, x) <==>
              if IsMax(last.Max) then 0 < Signed(x.Min) else Signed(last.Max) + 1 < Signed(x.Min)
  {
    hide Numbers.Less, AddQuantum;
    AddOne(last.Max);
    LessIsKeyOrder(AddQuantum(last.Max, 1), x.Min);
  }

  /** What one step of coalescing does to the set of values. */
  lemma ExtendKeeps(done: YangRange, x: YRange, fd: Digits)
    requires done != [] && Uniform(done, fd) && Uniform([x], fd)
    requires Signed(x.Min) <= Signed(x.Max)
    requires forall i :: 0 <= i < |done| ==> Signed(done[i].Min) <= Signed(done[i].Max)
    requires Signed(done[|done| - 1].Min) <= Signed(x.Min)
    ensures var e := Extend(done, x);
            && Uniform(e, fd)
            && (forall i :: 0 <= i < |e| ==> Signed(e[i].Min) <= Signed(e[i].Max))
            && Signed(e[|e| - 1].Min) <= Signed(x.Min)
            && forall v :: Member(v, e) <==> Member(v, done) || In(v, x)
  {
    hide Numbers.Less, StartsAfter, AddQuantum;
    var n := |done| - 1;
    var e := Extend(done, x);
    assert x == [x][0];
    StartsAfterMeans(done[n], x);
    LessIsKeyOrder(done[n].Max, x.Max);
    forall v
      ensures Member(v, e) <==> Member(v, done) || In(v, x)
    {
      if StartsAfter(done[n], x) {
        assert e[n + 1] == x && forall i :: 0 <= i <= n ==> e[i] == done[i];
      } else {
        assert |e| == n + 1 && forall i :: 0 <= i < n ==> e[i] == done[i];
        MergedValues(done[n], x, e[n], v);
      }
    }
  }

  lemma MergedValues(last: YRange, x: YRange, merged: YRange, v: int)
    requires Signed(last.Min) <= Signed(last.Max) && Signed(last.Min) <= Signed(x.Min) <= Signed(x.Max)
    requires IsMax(last.Max) || Signed(x.Min) <= Signed(last.Max) + 1
    requires merged == if Key(last.Max) < Key(x.Max) then last.(Max := x.Max) else last
    ensures In(v, merged) <==> In(v, last) || In(v, x)
  {
  }

  predicate SortedByMin(r: YangRange) {
    forall i :: 0 < i < |r| ==> Signed(r[i - 1].Min) <= Signed(r[i].Min)
  }

  lemma {:induction false} CoalesceFromKeeps(done: YangRange, rest: YangRange, fd: Digits)
    requires done != [] && Uniform(done, fd) && Uniform(rest, fd)
    requires forall i :: 0 <= i < |rest| ==> Signed(rest[i].Min) <= Signed(rest[i].Max)
    requires forall i :: 0 <= i < |done| ==> Signed(done[i].Min) <= Signed(done[i].Max)
    requires rest != [] ==> Signed(done[|done| - 1].Min) <= Signed(rest[0].Min)
    requires SortedByMin(rest)
    ensures var c := CoalesceFrom(done, rest);
            && c != [] && Uniform(c, fd)
            && (forall i :: 0 <= i < |c| ==> Signed(c[i].Min) <= Signed(c[i].Max))
            && forall v :: Member(v, c) <==> Member(v, done) || Member(v, rest)
    decreases rest
  {
    hide Extend;
    if rest != [] {
      var x := rest[0];
      ExtendKeeps(done, x, fd);
      CoalesceFromKeeps(Extend(done, x), rest[1..], fd);
      forall v
        ensures Member(v, rest) <==> In(v, x) || Member(v, rest[1..])
      {
        MemberCons(v, rest);
      }
    }
  }

  lemma MemberCons(v: int, r: YangRange)
    requires r != []
    ensures Member(v, r) <==> In(v, r[0]) || Member(v, r[1..])
  {
    if i :| 0 <= i < |r| && In(v, r[i]) {
      if i > 0 { assert In(v, r[1..][i - 1]); }
    }
    if j :| 0 <= j < |r[1..]| && In(v, r[1..][j]) {
      assert In(v, r[j + 1]);
    }
  }

  /** Sorted, valid ranges of one precision in signed terms. */
  lemma SortedSigned(r: YangRange, fd: Digits)
    requires Uniform(r, fd) && IsSorted(r) && AllValid(r)
    ensures SortedByMin(r)
    ensures forall i :: 0 <= i < |r| ==> Signed(r[i].Min) <= Signed(r[i].Max)
  {
    hide Numbers.Less;
    forall i | 0 < i < |r|
      ensures Signed(r[i - 1].Min) <= Signed(r[i].Min)
    {
      LessIsKeyOrder(r[i].Min, r[i - 1].Min);
    }
    forall i | 0 <= i < |r|
      ensures Signed(r[i].Min) <= Signed(r[i].Max)
    {
      ValidSigned(r[i]);
    }
  }

  /** Coalescing never changes the set of values, not even where the quantum wraps. */
  lemma CoalesceKeepsValues(r: YangRange, fd: Digits)
    requires Uniform(r, fd) && IsSorted(r) && AllValid(r)
    ensures Uniform(CoalesceSpec(r), fd)
    ensures SameValues(CoalesceSpec(r), r)
    ensures forall i :: 0 <= i < |CoalesceSpec(r)| ==> Signed(CoalesceSpec(r)[i].Min) <= Signed(CoalesceSpec(r)[i].Max)
  {
    hide CoalesceFrom, Valid, Before;
    SortedSigned(r, fd);
    if |r| >= 2 {
      CoalesceFromKeeps([r[0]], r[1..], fd);
      forall v
        ensures Member(v, CoalesceSpec(r)) <==> Member(v, r)
      {
        MemberCons(v, r);
        assert Member(v, [r[0]]) <==> In(v, r[0]) by {
          if In(v, r[0]) { assert In(v, [r[0]][0]); }
        }
      }
    }
  }

  /** No range after one that ends at 2^64-1 starts above zero. */
  predicate TopFree(r: YangRange) {
    forall k, j :: 0 <= k < j < |r| && IsMax(r[k].Max) ==> Signed(r[j].Min) <= 0
  }

  /** A missing gap between neighbours. */
  predicate Broken(r: YangRange) {
    exists i :: 0 < i < |r| && Signed(r[i - 1].Max) + 1 >= Signed(r[i].Min)
  }

  lemma {:induction false} BrokenStays(done: YangRange, rest: YangRange, fd: Digits)
    requires done != [] && Broken(done) && Uniform(done, fd) && Uniform(rest, fd)
    ensures Broken(CoalesceFrom(done, rest))
    decreases rest
  {
    hide Numbers.Less, StartsAfter;
    if rest != [] {
      var e := Extend(done, rest[0]);
      var n := |done| - 1;
      LessIsKeyOrder(done[n].Max, rest[0].Max);
      var i :| 0 < i < |done| && Signed(done[i - 1].Max) + 1 >= Signed(done[i].Min);
      assert e[i - 1].Max == done[i - 1].Max && e[i].Min == done[i].Min;
      BrokenStays(e, rest[1..], fd);
    }
  }

  /** One step of coalescing keeps the normal form unless it passes 2^64-1. */
  lemma ExtendNormal(done: YangRange, x: YRange, fd: Digits)
    requires done != [] && Uniform(done, fd) && Uniform([x], fd) && Coalesced(done)
    requires Signed(done[|done| - 1].Min) <= Signed(x.Min) <= Signed(x.Max)
    ensures var last := done[|done| - 1];
            var e := Extend(done, x);
            if IsMax(last.Max) && Signed(x.Min) > 0 then Broken(e)
            else
              && Coalesced(e)
              && (IsMax(e[|e| - 1].Max) <==> IsMax(last.Max) || IsMax(x.Max))
  {
    hide Numbers.Less, StartsAfter, AddQuantum;
    var n := |done| - 1;
    var e := Extend(done, x);
    assert x == [x][0];
    StartsAfterMeans(done[n], x);
    LessIsKeyOrder(done[n].Max, x.Max);
    if StartsAfter(done[n], x) {
      assert e[n] == done[n] && e[n + 1] == x;
    }
  }

  predicate NoneAboveZero(r: YangRange) {
    forall j :: 0 <= j < |r| ==> Signed(r[j].Min) <= 0
  }

  lemma TopFreeCons(x: YRange, r: YangRange)
    ensures TopFree([x] + r) <==> (IsMax(x.Max) ==> NoneAboveZero(r)) && TopFree(r)
    ensures NoneAboveZero([x] + r) <==> Signed(x.Min) <= 0 && NoneAboveZero(r)
  {
    hide IsMax, Signed;
    var a := [x] + r;
    assert a[0] == x && forall j :: 0 <= j < |r| ==> r[j] == a[j + 1];
    assert forall j :: 0 < j < |a| ==> a[j] == r[j - 1];
  }

  lemma TopFreeStep(last: YRange, x: YRange, merged: YRange, rest: YangRange)
    requires IsMax(merged.Max) <==> IsMax(last.Max) || IsMax(x.Max)
    requires !(IsMax(last.Max) && Signed(x.Min) > 0)
    ensures TopFree([last, x] + rest) <==> TopFree([merged] + rest)
  {
    hide TopFree, NoneAboveZero, IsMax, Signed;
    assert [last, x] + rest == [last] + ([x] + rest);
    TopFreeCons(last, [x] + rest);
    TopFreeCons(x, rest);
    TopFreeCons(merged, rest);
  }

  lemma {:induction false} CoalesceFromNormal(done: YangRange, rest: YangRange, fd: Digits)
    requires done != [] && Uniform(done, fd) && Uniform(rest, fd) && Coalesced(done)
    requires forall i :: 0 <= i < |rest| ==> Signed(rest[i].Min) <= Signed(rest[i].Max)
    requires rest != [] ==> Signed(done[|done| - 1].Min) <= Signed(rest[0].Min)
    requires SortedByMin(rest)
    ensures Coalesced(CoalesceFrom(done, rest)) <==> TopFree([done[|done| - 1]] + rest)
    decreases rest
  {
    hide Extend, TopFree, IsMax;
    var last := done[|done| - 1];
    if rest == [] {
      LastTopFree(last);
      assert [last] + rest == [last];
    } else {
      var x, more := rest[0], rest[1..];
      var e := Extend(done, x);
      assert [last] + rest == [last, x] + more;
      ExtendNormal(done, x, fd);
      ExtendKeeps(done, x, fd);
      if IsMax(last.Max) && Signed(x.Min) > 0 {
        BrokenStays(e, more, fd);
        NotTopFree(last, x, more);
      } else {
        CoalesceFromNormal(e, more, fd);
        TopFreeStep(last, x, e[|e| - 1], more);
      }
    }
  }

  lemma LastTopFree(last: YRange)
    ensures TopFree([last])
  {
  }

  lemma NotTopFree(last: YRange, x: YRange, more: YangRange)
    requires IsMax(last.Max) && Signed(x.Min) > 0
    ensures !TopFree([last, x] + more)
  {
    var a := [last, x] + more;
    assert a[0] == last && a[1] == x;
  }

  /** Coalescing reaches the normal form exactly when no range follows the top of the 64 bits. */
  lemma CoalesceIsNormal(r: YangRange, fd: Digits)
    requires Uniform(r, fd) && IsSorted(r) && AllValid(r)
    ensures Coalesced(CoalesceSpec(r)) <==> TopFree(r)
  {
    hide CoalesceFrom, Valid, Before;
    SortedSigned(r, fd);
    if |r| >= 2 {
      CoalesceFromNormal([r[0]], r[1..], fd);
      assert [r[0]] + r[1..] == r;
    }
  }

  /** A set of values has at most one coalesced form. */
  lemma {:induction false} CoalescedIsUnique(r: YangRange, s: YangRange, fd: Digits)
    requires Uniform(r, fd) && Uniform(s, fd) && Coalesced(r) && Coalesced(s)
    requires SameValues(r, s)
    requires forall i :: 0 <= i < |r| ==> !NegativeZero(r[i].Min) && !NegativeZero(r[i].Max)
    requires forall i :: 0 <= i < |s| ==> !NegativeZero(s[i].Min) && !NegativeZero(s[i].Max)
    ensures r == s
    decreases |r|
  {
    hide Member;
    if r == [] {
      if s != [] {
        MemberCons(Signed(s[0].Min), s);
        NoMember(Signed(s[0].Min));
      }
    } else if s == [] {
      MemberCons(Signed(r[0].Min), r);
      NoMember(Signed(r[0].Min));
    } else {
      FirstRange(r, s);
      FirstRange(s, r);
      SameNumber(r[0].Min, s[0].Min);
      SameNumber(r[0].Max, s[0].Max);
      forall v
        ensures Member(v, r[1..]) <==> Member(v, s[1..])
      {
        MemberCons(v, r);
        MemberCons(v, s);
        if Member(v, r[1..]) { RestAbove(v, r); }
        if Member(v, s[1..]) { RestAbove(v, s); }
      }
      CoalescedIsUnique(r[1..], s[1..], fd);
      assert r == [r[0]] + r[1..] && s == [s[0]] + s[1..];
    }
  }

  lemma NoMember(v: int)
    ensures !Member(v, [])
  {
  }

  lemma SameNumber(n: Number, m: Number)
    requires Signed(n) == Signed(m) && n.FractionDigits == m.FractionDigits
    requires !NegativeZero(n) && !NegativeZero(m)
    ensures n == m
  {
  }

  lemma RestAbove(v: int, r: YangRange)
    requires r != [] && Coalesced(r) && Member(v, r[1..])
    ensures v > Signed(r[0].Max) + 1
  {
    var i :| 0 <= i < |r[1..]| && In(v, r[1..][i]);
    CoalescedApart(r, 0, i + 1);
  }

  /** The first range of `s` is within that of `r` when they have the same values. */
  lemma FirstRange(r: YangRange, s: YangRange)
    requires r != [] && s != [] && Coalesced(r) && Coalesced(s) && SameValues(r, s)
    ensures Signed(r[0].Min) <= Signed(s[0].Min) && Signed(s[0].Max) <= Signed(r[0].Max)
  {
    hide Member;
    var lo := Signed(s[0].Min);
    MemberCons(lo, s);
    MemberCons(lo, r);
    if Member(lo, r[1..]) { RestAbove(lo, r); }
    assert Signed(r[0].Min) <= lo;
    var low := Signed(r[0].Min);
    MemberCons(low, r);
    MemberCons(low, s);
    if Member(low, s[1..]) { RestAbove(low, s); }
    assert lo <= low;
    if Signed(s[0].Max) > Signed(r[0].Max) {
      var v := Signed(r[0].Max) + 1;
      MemberCons(v, s);
      MemberCons(v, r);
      if Member(v, r[1..]) { RestAbove(v, r); }
      assert false;
    }
  }

  // ---------------------------------------------------------------- Contains

  /** The two-pointer walk: `ri` is where the search in `r` stands. */
  function ContainsFrom(r: YangRange, ri: nat, s: YangRange): bool
    requires ri < |r|
    decreases |s|, |r| - ri
  {
    if s == [] then true
    else if Numbers.Less(r[ri].Max, s[0].Min) then ri + 1 < |r| && ContainsFrom(r, ri + 1, s)
    else if Numbers.Less(s[0].Min, r[ri].Min) || Numbers.Less(r[ri].Max, s[0].Max) then false
    else ContainsFrom(r, ri, s[1..])
  }

  function ContainsSpec(r: YangRange, s: YangRange): bool {
    r == [] || s == [] || ContainsFrom(r, 0, s)
  }

  /** Whether every value of `s` is one of `r`; an empty receiver stands for everything. */
  method Contains(r: YangRange, s: YangRange) returns (b: bool)
    ensures b == ContainsSpec(r, s)
  {
    hide Numbers.Less;
    if |r| == 0 || |s| == 0 {
      return true;
    }
    var ri := 0;
    assert s[0..] == s;
    for k := 0 to |s|
      invariant ri < |r|
      invariant ContainsFrom(r, ri, s[k..]) == ContainsSpec(r, s)
    {
      var ss := s[k];
      assert s[k..][0] == ss && s[k..][1..] == s[k + 1..];
      while Numbers.Less(r[ri].Max, ss.Min)
        invariant ri < |r|
        invariant ContainsFrom(r, ri, s[k..]) == ContainsSpec(r, s)
        decreases |r| - ri
      {
        ri := ri + 1;
        if ri == |r| {
          return false;
        }
      }
      if Numbers.Less(ss.Min, r[ri].Min) || Numbers.Less(r[ri].Max, ss.Max) {
        return false;
      }
    }
    assert s[|s|..] == [];
    return true;
  }

  /** `x` lies within `y` in the order of Less. */
  predicate Within(x: YRange, y: YRange) {
    Key(y.Min) <= Key(x.Min) && Key(x.Max) <= Key(y.Max)
  }

  predicate Covered(x: YRange, r: YangRange) {
    exists j :: 0 <= j < |r| && Within(x, r[j])
  }

  /** Bounds in the order of Less: valid ranges, increasing lower bounds. */
  predicate Ordered(s: YangRange) {
    && (forall i :: 0 <= i < |s| ==> Key(s[i].Min) <= Key(s[i].Max))
    && (forall i :: 0 < i < |s| ==> Key(s[i - 1].Min) <= Key(s[i].Min))
  }

  lemma {:induction false} OrderedFirst(s: YangRange, i: nat)
    requires Ordered(s) && i < |s|
    ensures Key(s[0].Min) <= Key(s[i].Min)
    decreases i
  {
    if i > 0 { OrderedFirst(s, i - 1); }
  }

  lemma {:induction false} ContainsFromCovers(r: YangRange, ri: nat, s: YangRange, fd: Digits)
    requires ri < |r| && Uniform(r, fd) && Uniform(s, fd) && Coalesced(r) && Ordered(s)
    requires forall j :: 0 <= j < ri && s != [] ==> Key(r[j].Max) < Key(s[0].Min)
    ensures ContainsFrom(r, ri, s) <==> forall i :: 0 <= i < |s| ==> Covered(s[i], r)
    decreases |s|, |r| - ri
  {
    hide Numbers.Less;
    if s != [] {
      var x := s[0];
      LessIsKeyOrder(r[ri].Max, x.Min);
      LessIsKeyOrder(x.Min, r[ri].Min);
      LessIsKeyOrder(r[ri].Max, x.Max);
      if Key(r[ri].Max) < Key(x.Min) {
        if ri + 1 < |r| {
          ContainsFromCovers(r, ri + 1, s, fd);
        } else {
          assert !Covered(x, r);
        }
      } else {
        if !Within(x, r[ri]) {
          OnlyHere(x, r, ri);
        } else {
          assert Covered(x, r);
          if |s| > 1 { OrderedFirst(s, 1); }
          ContainsFromCovers(r, ri, s[1..], fd);
          CoveredCons(r, s);
        }
      }
    }
  }

  lemma CoveredCons(r: YangRange, s: YangRange)
    requires s != []
    ensures (forall i :: 0 <= i < |s| ==> Covered(s[i], r))
       <==> Covered(s[0], r) && forall i :: 0 <= i < |s[1..]| ==> Covered(s[1..][i], r)
  {
    hide Covered;
    if Covered(s[0], r) && forall i :: 0 <= i < |s[1..]| ==> Covered(s[1..][i], r) {
      forall i | 0 <= i < |s|
        ensures Covered(s[i], r)
      {
        if i > 0 { assert s[i] == s[1..][i - 1]; }
      }
    }
  }

  /** Where the walk stops, no other range of `r` can cover `x`. */
  lemma OnlyHere(x: YRange, r: YangRange, ri: nat)
    requires ri < |r| && Coalesced(r) && Key(x.Min) <= Key(x.Max)
    requires forall j :: 0 <= j < ri ==> Key(r[j].Max) < Key(x.Min)
    requires Key(r[ri].Max) >= Key(x.Min) && !Within(x, r[ri])
    ensures !Covered(x, r)
  {
    if j :| 0 <= j < |r| && Within(x, r[j]) {
      if j > ri { CoalescedApart(r, ri, j); }
    }
  }

  /** Contains answers whether every range of `s` lies within one of `r`. */
  lemma ContainsCovers(r: YangRange, s: YangRange, fd: Digits)
    requires Uniform(r, fd) && Uniform(s, fd) && Coalesced(r) && Ordered(s) && r != []
    ensures ContainsSpec(r, s) <==> forall i :: 0 <= i < |s| ==> Covered(s[i], r)
  {
    if s != [] { ContainsFromCovers(r, 0, s, fd); }
  }

  /** A bound of `s` and one of `r` are zeros of different signs, the wrong way round. */
  predicate ZeroClash(r: YangRange, s: YangRange) {
    exists i, j :: 0 <= i < |s| && 0 <= j < |r| && ZeroClashAt(r[j], s[i])
  }

  predicate ZeroClashAt(y: YRange, x: YRange) {
    || (NegativeZero(x.Min) && y.Min.Value == 0 && !y.Min.Negative)
    || (NegativeZero(y.Max) && x.Max.Value == 0 && !x.Max.Negative)
  }

  /** The range of a coalesced list that holds the values of one of its subsets' ranges. */
  lemma Holder(r: YangRange, x: YRange) returns (j: nat)
    requires Coalesced(r) && Signed(x.Min) <= Signed(x.Max)
    requires forall v :: In(v, x) ==> Member(v, r)
    ensures j < |r| && Signed(r[j].Min) <= Signed(x.Min) && Signed(x.Max) <= Signed(r[j].Max)
  {
    var lo := Signed(x.Min);
    assert In(lo, x);
    j :| 0 <= j < |r| && In(lo, r[j]);
    var v := Signed(r[j].Max) + 1;
    if v <= Signed(x.Max) {
      assert In(v, x);
      var i :| 0 <= i < |r| && In(v, r[i]);
      if i < j { CoalescedApart(r, i, j); }
      if j < i { CoalescedApart(r, j, i); }
      assert false;
    }
  }

  lemma CoveredIsSubset(r: YangRange, s: YangRange)
    requires forall i :: 0 <= i < |s| ==> Covered(s[i], r)
    ensures Subset(s, r)
  {
    forall v | Member(v, s)
      ensures Member(v, r)
    {
      var i :| 0 <= i < |s| && In(v, s[i]);
      var j :| 0 <= j < |r| && Within(s[i], r[j]);
      assert In(v, r[j]);
    }
  }

  /** Two ranges of a coalesced list that both hold a zero are the same. */
  lemma CoveredWithoutClash(r: YangRange, s: YangRange, i: nat, k: nat)
    requires Coalesced(r) && i < |s| && k < |r| && Covered(s[i], r)
    requires Signed(s[i].Min) <= Signed(s[i].Max)
    ensures !ZeroClashAt(r[k], s[i])
  {
    var j :| 0 <= j < |r| && Within(s[i], r[j]);
    if ZeroClashAt(r[k], s[i]) {
      if j < k { CoalescedApart(r, j, k); }
      if k < j { CoalescedApart(r, k, j); }
      assert false;
    }
  }

  /**
   Contains is exact: for a coalesced non-empty receiver it tells whether every
   value of `s` is a value of `r`, save where a negative zero meets a zero.
   */
  lemma ContainsIsExact(r: YangRange, s: YangRange, fd: Digits)
    requires Uniform(r, fd) && Uniform(s, fd) && Coalesced(r) && Ordered(s) && r != []
    ensures ContainsSpec(r, s) <==> Subset(s, r) && !ZeroClash(r, s)
  {
    hide Covered, ContainsFrom;
    ContainsCovers(r, s, fd);
    if ContainsSpec(r, s) {
      CoveredIsSubset(r, s);
      forall i, j | 0 <= i < |s| && 0 <= j < |r|
        ensures !ZeroClashAt(r[j], s[i])
      {
        CoveredWithoutClash(r, s, i, j);
      }
    }
    if Subset(s, r) && !ZeroClash(r, s) {
      forall i | 0 <= i < |s|
        ensures Covered(s[i], r)
      {
        forall v | In(v, s[i])
          ensures Member(v, r)
        {
          assert Member(v, s);
        }
        var j := Holder(r, s[i]);
        assert !ZeroClashAt(r[j], s[i]);
        HolderCovers(r, s[i], j);
      }
    }
  }

  lemma HolderCovers(r: YangRange, x: YRange, j: nat)
    requires j < |r| && Signed(r[j].Min) <= Signed(x.Min) && Signed(x.Max) <= Signed(r[j].Max)
    requires !ZeroClashAt(r[j], x)
    ensures Covered(x, r)
  {
    assert Within(x, r[j]);
  }

  /** Without negative zeros, Contains is the subset test. */
  lemma ContainsIsSubset(r: YangRange, s: YangRange, fd: Digits)
    requires Uniform(r, fd) && Uniform(s, fd) && Coalesced(r) && Ordered(s) && r != []
    requires forall i :: 0 <= i < |r| ==> !NegativeZero(r[i].Min) && !NegativeZero(r[i].Max)
    requires forall i :: 0 <= i < |s| ==> !NegativeZero(s[i].Min) && !NegativeZero(s[i].Max)
    ensures ContainsSpec(r, s) <==> Subset(s, r)
  {
    hide ContainsSpec, Subset;
    ContainsIsExact(r, s, fd);
  }

  // ---------------------------------------------------------------- Sort and Validate

  function Insert(x: YRange, s: YangRange): YangRange {
    if s == [] || !Before(s[0], x) then [x] + s else [s[0]] + Insert(x, s[1..])
  }

  /** Stands for sort.Sort; see SortIsUnique for why the algorithm does not matter. */
  function Sort(r: YangRange): YangRange {
    if r == [] then [] else Insert(r[0], Sort(r[1..]))
  }

  lemma BeforeMeans(x: YRange, y: YRange)
    requires Uniform([x, y], x.Min.FractionDigits)
    ensures Before(x, y) <==>
              Key(x.Min) < Key(y.Min) || (Key(x.Min) == Key(y.Min) && Key(x.Max) < Key(y.Max))
  {
    hide Numbers.Less;
    assert [x, y][0] == x && [x, y][1] == y;
    LessIsKeyOrder(x.Min, y.Min);
    LessIsKeyOrder(y.Min, x.Min);
    LessIsKeyOrder(x.Max, y.Max);
  }

  lemma {:induction false} InsertSorts(x: YRange, s: YangRange, fd: Digits)
    requires Uniform([x], fd) && Uniform(s, fd) && IsSorted(s)
    ensures var r := Insert(x, s);
            && IsSorted(r) && Uniform(r, fd) && multiset(r) == multiset{x} + multiset(s)
            && r != [] && (r[0] == x || (s != [] && r[0] == s[0]))
    decreases s
  {
    hide Before;
    assert x == [x][0];
    if s != [] && Before(s[0], x) {
      var more := Insert(x, s[1..]);
      InsertSorts(x, s[1..], fd);
      BeforeMeans(s[0], x);
      BeforeMeans(x, s[0]);
      assert s == [s[0]] + s[1..];
      var r := [s[0]] + more;
      forall i | 0 < i < |r|
        ensures !Before(r[i], r[i - 1])
      {
        assert r[i] == more[i - 1];
        if i == 1 {
          if more[0] != x { assert s[1] == s[1..][0]; }
        }
      }
    }
  }

  lemma {:induction false} SortSorts(r: YangRange, fd: Digits)
    requires Uniform(r, fd)
    ensures IsSorted(Sort(r)) && Uniform(Sort(r), fd) && multiset(Sort(r)) == multiset(r)
    decreases r
  {
    hide Insert, Before;
    if r != [] {
      SortSorts(r[1..], fd);
      InsertSorts(r[0], Sort(r[1..]), fd);
      assert r == [r[0]] + r[1..];
    }
  }

  lemma SortFixed(r: YangRange)
    requires IsSorted(r)
    ensures Sort(r) == r
  {
    hide Before;
    if r != [] {
      assert forall i :: 0 < i < |r[1..]| ==> r[1..][i] == r[i + 1] && r[1..][i - 1] == r[i];
      SortFixed(r[1..]);
      assert r == [r[0]] + r[1..];
    }
  }

  /** The order compares keys, and the keys determine the bounds. */
  predicate AtMost(x: YRange, y: YRange) {
    Key(x.Min) < Key(y.Min) || (Key(x.Min) == Key(y.Min) && Key(x.Max) <= Key(y.Max))
  }

  lemma {:induction false} SortedFirst(r: YangRange, i: nat, fd: Digits)
    requires Uniform(r, fd) && IsSorted(r) && i < |r|
    ensures AtMost(r[0], r[i])
    decreases i
  {
    hide Before;
    if i > 0 {
      SortedFirst(r, i - 1, fd);
      BeforeMeans(r[i], r[i - 1]);
    }
  }

  lemma AtMostBothWays(x: YRange, y: YRange)
    requires x.Min.FractionDigits == y.Min.FractionDigits && x.Max.FractionDigits == y.Max.FractionDigits
    requires AtMost(x, y) && AtMost(y, x)
    ensures x == y
  {
  }

  /** A list of one precision has a single sorted permutation, so any sort gives the same. */
  lemma {:induction false} SortIsUnique(a: YangRange, b: YangRange, fd: Digits)
    requires Uniform(a, fd) && Uniform(b, fd) && IsSorted(a) && IsSorted(b)
    requires multiset(a) == multiset(b)
    ensures a == b
    decreases |a|
  {
    hide Before, AtMost, Key, IsSorted;
    assert |a| == |multiset(a)| == |multiset(b)| == |b|;
    if a != [] {
      SortedHead(a, b, fd);
      SortedHead(b, a, fd);
      AtMostBothWays(a[0], b[0]);
      SortedTail(a);
      SortedTail(b);
      assert a == [a[0]] + a[1..] && b == [b[0]] + b[1..];
      assert multiset(a[1..]) == multiset(a) - multiset{a[0]};
      assert multiset(b[1..]) == multiset(b) - multiset{b[0]};
      SortIsUnique(a[1..], b[1..], fd);
    }
  }

  lemma SortedTail(a: YangRange)
    requires a != [] && IsSorted(a)
    ensures IsSorted(a[1..])
  {
    hide Before;
    assert forall i :: 0 < i < |a[1..]| ==> a[1..][i] == a[i + 1] && a[1..][i - 1] == a[i];
  }

  lemma SortedHead(a: YangRange, b: YangRange, fd: Digits)
    requires Uniform(a, fd) && IsSorted(a) && multiset(a) == multiset(b) && b != []
    ensures a != [] && AtMost(a[0], b[0])
  {
    hide Before, IsSorted, AtMost;
    assert b[0] in multiset(b);
    var j :| 0 <= j < |a| && a[j] == b[0];
    SortedFirst(a, j, fd);
  }

  /** What Validate accepts: it compares every later range with the first one only. */
  predicate ValidateSpec(r: YangRange) {
    IsSorted(r) && (r != [] ==> Valid(r[0]) && forall i :: 0 < i < |r| ==> !Numbers.Less(r[i].Min, r[0].Max))
  }

  method Validate(r: YangRange) returns (ok: bool)
    ensures ok == ValidateSpec(r)
  {
    hide Numbers.Less, Before;
    var i := |r| - 1;
    while i > 0
      invariant forall k :: 0 < k < |r| && k > i ==> !Before(r[k], r[k - 1])
    {
      if Before(r[i], r[i - 1]) {
        return false;
      }
      i := i - 1;
    }
    if |r| == 0 {
      return true;
    } else if !Valid(r[0]) {
      return false;
    }
    var p := r[0];
    for j := 1 to |r|
      invariant forall k :: 0 < k < j ==> !Numbers.Less(r[k].Min, p.Max)
    {
      if Numbers.Less(r[j].Min, p.Max) {
        return false;
      }
    }
    return true;
  }

  /** Validate accepts a coalesced list exactly if its first range is valid. */
  lemma CoalescedValidates(r: YangRange, fd: Digits)
    requires Uniform(r, fd) && Coalesced(r)
    ensures ValidateSpec(r) <==> r == [] || Valid(r[0])
  {
    hide Numbers.Less, Before, Valid;
    forall i | 0 < i < |r|
      ensures !Before(r[i], r[i - 1]) && !Numbers.Less(r[i].Min, r[0].Max)
    {
      assert Uniform([r[i], r[i - 1]], fd);
      BeforeMeans(r[i], r[i - 1]);
      LessIsKeyOrder(r[i].Min, r[0].Max);
      CoalescedApart(r, 0, i);
    }
  }

  /** Coalescing a coalesced list changes nothing. */
  lemma {:induction false} CoalesceFromFixed(done: YangRange, rest: YangRange, fd: Digits)
    requires done != [] && Uniform(done + rest, fd) && Coalesced(done + rest)
    ensures CoalesceFrom(done, rest) == done + rest
    decreases rest
  {
    hide StartsAfter;
    var all := done + rest;
    if rest != [] {
      var n := |done| - 1;
      assert all[n] == done[n] && all[n + 1] == rest[0];
      StartsAfterMeans(done[n], rest[0]);
      assert done + [rest[0]] + rest[1..] == all;
      CoalesceFromFixed(done + [rest[0]], rest[1..], fd);
    }
  }

  lemma CoalesceFixed(r: YangRange, fd: Digits)
    requires Uniform(r, fd) && Coalesced(r)
    ensures CoalesceSpec(r) == r
  {
    if |r| >= 2 {
      assert [r[0]] + r[1..] == r;
      CoalesceFromFixed([r[0]], r[1..], fd);
    }
  }
}
