/**
 What coalesce (pkg/yang/types_builtin.go) leaves of a list in which ranges
 follow one that ends at 2^64-1: up to that one the list is coalesced, and it
 holds all the values.
 */
module RangeHeads {
  import opened Numbers
  import opened Ranges

  /** The ranges up to the first that ends at 2^64-1. */
  function Head(r: YangRange): (h: YangRange)
    ensures |h| <= |r| && h == r[..|h|]
  {
    if r == [] then []
    else if IsMax(r[0].Max) then [r[0]]
    else
      var h := Head(r[1..]);
      assert r == [r[0]] + r[1..];
      [r[0]] + h
  }

  /** These are coalesced, and no later range starts below the last of them. */
  predicate Headed(r: YangRange) {
    var h := Head(r);
    Coalesced(h) && forall j :: |h| <= j < |r| && h != [] ==> Signed(h[|h| - 1].Min) <= Signed(r[j].Min)
  }

  lemma {:induction false} HeadEnds(r: YangRange)
    ensures var h := Head(r);
            && (h == [] <==> r == [])
            && (|h| < |r| ==> IsMax(h[|h| - 1].Max))
            && forall k :: 0 <= k < |h| - 1 ==> !IsMax(h[k].Max)
    decreases |r|
  {
    if r != [] && !IsMax(r[0].Max) { HeadEnds(r[1..]); }
  }

  /** All values are values of these. */
  lemma HeadHolds(r: YangRange)
    requires Headed(r)
    ensures SameValues(r, Head(r))
  {
    var h := Head(r);
    HeadEnds(r);
    forall v
      ensures Member(v, r) <==> Member(v, h)
    {
      if i :| 0 <= i < |r| && In(v, r[i]) { assert In(v, h[if i < |h| then i else |h| - 1]); }
      if i :| 0 <= i < |h| && In(v, h[i]) { assert In(v, r[i]); }
    }
  }

  /** The walk of Contains never gets past them. */
  lemma {:induction false} ContainsFromHead(r: YangRange, ri: nat, s: YangRange, fd: Digits)
    requires Uniform(r, fd) && Uniform(s, fd) && ri < |Head(r)|
    ensures ContainsFrom(r, ri, s) == ContainsFrom(Head(r), ri, s)
    decreases |s|, |r| - ri
  {
    hide Numbers.Less;
    var h := Head(r);
    HeadEnds(r);
    if s != [] {
      assert h[ri] == r[ri];
      if Numbers.Less(r[ri].Max, s[0].Min) {
        LessIsKeyOrder(r[ri].Max, s[0].Min);
        if ri + 1 < |h| { ContainsFromHead(r, ri + 1, s, fd); }
      } else {
        ContainsFromHead(r, ri, s[1..], fd);
      }
    }
  }

  lemma ContainsHead(r: YangRange, s: YangRange, fd: Digits)
    requires Uniform(r, fd) && Uniform(s, fd)
    ensures ContainsSpec(r, s) == ContainsSpec(Head(r), s)
  {
    HeadEnds(r);
    if r != [] { ContainsFromHead(r, 0, s, fd); }
  }

  /** Nothing follows 2^64-1 in a coalesced list. */
  lemma CoalescedHead(r: YangRange)
    requires Coalesced(r)
    ensures Head(r) == r && Headed(r)
  {
    HeadEnds(r);
  }

  /** The head of a list that starts with a coalesced one up to 2^64-1. */
  lemma {:induction false} HeadIs(done: YangRange, r: YangRange)
    requires done != [] && done <= r && Coalesced(done) && IsMax(done[|done| - 1].Max)
    ensures Head(r) == done
    decreases |done|
  {
    if |done| == 1 {
      assert done == [r[0]];
    } else {
      assert Signed(done[1 - 1].Max) + 1 < Signed(done[1].Min);
      HeadIs(done[1..], r[1..]);
      assert done == [done[0]] + done[1..];
    }
  }

  /** All lower bounds are at least `low`. */
  predicate From(r: YangRange, low: int) {
    forall j :: 0 <= j < |r| ==> low <= Signed(r[j].Min)
  }

  /** Further steps leave what stands before the last range. */
  lemma {:induction false} CoalesceFromFront(done: YangRange, tail: YangRange, rest: YangRange, low: int)
    returns (end: YangRange)
    requires tail != [] && From(tail, low) && From(rest, low)
    ensures CoalesceFrom(done + tail, rest) == done + end && From(end, low)
    decreases rest
  {
    hide StartsAfter, Numbers.Less, Signed;
    if rest == [] {
      end := tail;
    } else {
      var x := rest[0];
      assert (done + tail)[|done + tail| - 1] == tail[|tail| - 1];
      assert Extend(done + tail, x) == done + Extend(tail, x);
      end := CoalesceFromFront(done, Extend(tail, x), rest[1..], low);
    }
  }

  /** Coalescing a sorted list reaches that form. */
  lemma {:induction false} CoalesceFromHeaded(done: YangRange, rest: YangRange, fd: Digits)
    requires done != [] && Uniform(done, fd) && Uniform(rest, fd) && Coalesced(done)
    requires forall i :: 0 <= i < |rest| ==> Signed(rest[i].Min) <= Signed(rest[i].Max)
    requires rest != [] ==> Signed(done[|done| - 1].Min) <= Signed(rest[0].Min)
    requires SortedByMin(rest)
    ensures Headed(CoalesceFrom(done, rest))
    decreases rest
  {
    hide Extend, IsMax, StartsAfter, Signed, Headed;
    if rest == [] {
      CoalescedHead(done);
    } else {
      var x, more, last := rest[0], rest[1..], done[|done| - 1];
      var e := Extend(done, x);
      ExtendNormal(done, x, fd);
      ExtendKeeps(done, x, fd);
      if IsMax(last.Max) && Signed(x.Min) > 0 {
        PastTheTop(done, x, fd);
        SortedFrom(rest);
        var end := CoalesceFromFront(done, [x], more, Signed(x.Min));
        HeadIs(done, done + end);
        FrontHeaded(done, end, Signed(x.Min));
      } else {
        CoalesceFromHeaded(e, more, fd);
      }
    }
  }

  lemma PastTheTop(done: YangRange, x: YRange, fd: Digits)
    requires done != [] && Uniform(done, fd) && Uniform([x], fd)
    requires IsMax(done[|done| - 1].Max) && Signed(x.Min) > 0
    ensures Extend(done, x) == done + [x]
  {
    hide StartsAfter;
    assert x == [x][0];
    StartsAfterMeans(done[|done| - 1], x);
  }

  lemma {:induction false} SortedFrom(r: YangRange)
    requires r != [] && SortedByMin(r)
    ensures From([r[0]], Signed(r[0].Min)) && From(r[1..], Signed(r[0].Min))
    decreases |r|
  {
    hide Signed;
    if |r| > 1 { SortedFrom(r[1..]); }
  }

  lemma FrontHeaded(done: YangRange, end: YangRange, low: int)
    requires done != [] && Coalesced(done) && Head(done + end) == done
    requires From(end, low) && Signed(done[|done| - 1].Min) <= low
    ensures Headed(done + end)
  {
    hide Signed, Coalesced;
    var r := done + end;
    assert forall j :: |done| <= j < |r| ==> r[j] == end[j - |done|];
  }

  /** So whatever list coalescing gives is coalesced up to 2^64-1. */
  lemma CoalesceHeaded(r: YangRange, fd: Digits)
    requires Uniform(r, fd) && IsSorted(r) && AllValid(r)
    ensures Headed(CoalesceSpec(r))
  {
    hide CoalesceFrom, Valid, Before, Headed, Signed;
    SortedSigned(r, fd);
    if |r| >= 2 {
      CoalesceFromHeaded([r[0]], r[1..], fd);
    } else {
      CoalescedHead(r);
    }
  }
}
