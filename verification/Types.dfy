/**
 Resolution of types and typedefs (pkg/yang/types.go), for what concerns
 fraction-digits, range and length.
 */
module Types {
  import opened Text
  import opened Numbers
  import opened Ranges
  import opened RangeHeads
  import opened RangeText
  import opened RangeRoundTrip
  import opened Wrappers

  datatype Kind = Integer | Decimal64 | Other

  /** A missing range or length is the empty list. */
  datatype YangType = YangType(Kind: Kind, FractionDigits: Digits, Range: YangRange, Length: YangRange)

  /** The restrictions written in a type statement. */
  datatype Statement = Statement(fractionDigits: Option<string>, range: Option<string>, length: Option<string>)

  const NO_BASE := YangType(Other, 0, [], [])

  const UINT64_RANGE: YangRange := [YRange(Number(0, 0, false), Number(TWO_64 - 1, 0, false))]

  /** The widest range of a decimal64 with `fd` fraction digits. */
  function DecimalRange(fd: Digits): YangRange {
    [YRange(Number(TWO_63, fd, true), Number(TWO_63 - 1, fd, false))]
  }

  /** The base types: integers come with their range, decimal64 without one. */
  predicate Builtin(y: YangType) {
    && y.FractionDigits == 0 && y.Length == []
    && match y.Kind
       case Integer => y.Range != [] && Uniform(y.Range, 0) && Coalesced(y.Range)
       case _ => y.Range == []
  }

  predicate RangesEqual(r: YangRange, q: YangRange) {
    |r| == |q| && forall i :: 0 <= i < |r| ==> RangeEqual(r[i], q[i])
  }

  /** Value.asRangeInt(1, 18); a failure leaves zero. */
  function AsFractionDigits(v: Option<string>): (Digits, bool)
  {
    if v.None? then (0, false)
    else
      var n := ParseInt(v.value);
      if n.Error? then (0, false)
      else
        var i := Int(n.value);
        if i.Some? && 1 <= i.value <= 18 then (i.value, true) else (0, false)
  }

  /** A resolved type and whether no error was reported for it. */
  datatype Resolved = Resolved(y: YangType, ok: bool)

  predicate TreatedAsDecimal(parent: YangType, direct: bool) {
    parent.Kind == Decimal64 && (direct || parent.FractionDigits != 0)
  }

  /** The fraction-digits rules; `direct` says that the statement names a base type itself. */
  function ApplyDigits(parent: YangType, s: Statement, direct: bool): Resolved {
    if !TreatedAsDecimal(parent, direct) then Resolved(parent, s.fractionDigits == None)
    else if parent.FractionDigits != 0 then Resolved(parent, s.fractionDigits == None)
    else
      var i := AsFractionDigits(s.fractionDigits);
      Resolved(parent.(FractionDigits := i.0, Range := DecimalRange(i.0)), i.1)
  }

  /** A range statement on a type whose range so far is that of `y`. */
  function ApplyRange(y: YangType, s: Statement, decimal: bool): Resolved {
    if s.range == None then Resolved(y, true)
    else
      var yr := ParseChildRanges(y.Range, s.range.value, decimal, y.FractionDigits);
      if yr.Error? then Resolved(y, false)
      else if RangesEqual(yr.value, y.Range) then Resolved(y, true)
      else Resolved(y.(Range := yr.value), true)
  }

  function LengthParent(y: YangType): YangRange {
    if y.Length == [] then UINT64_RANGE else y.Length
  }

  function ApplyLength(y: YangType, s: Statement): Resolved {
    if s.length == None then Resolved(y, true)
    else
      var yr := ParseChildRanges(LengthParent(y), s.length.value, false, 0);
      if yr.Error? then Resolved(y, false)
      else if RangesEqual(yr.value, y.Length) then Resolved(y, true)
      else Resolved(y.(Length := yr.value), forall i :: 0 <= i < |yr.value| ==> !yr.value[i].Min.Negative)
  }

  /** The type a statement defines on top of `parent`. */
  function Derive(parent: YangType, s: Statement, direct: bool): Resolved {
    var decimal := TreatedAsDecimal(parent, direct);
    var d := ApplyDigits(parent, s, direct);
    if decimal && parent.FractionDigits != 0 && s.fractionDigits != None then Resolved(parent, false)
    else
      var r := ApplyRange(d.y, s, decimal);
      var l := ApplyLength(r.y, s);
      Resolved(l.y, d.ok && r.ok && l.ok)
  }

  // ---------------------------------------------------------------- one step

  /** Bounds have the precision of the type, and its ranges are such as coalescing gives. */
  predicate TypeOk(y: YangType) {
    && Uniform(y.Range, y.FractionDigits) && Uniform(y.Length, 0) && Headed(y.Range) && Headed(y.Length)
    && (y.Kind != Decimal64 ==> y.FractionDigits == 0)
  }

  ghost predicate NarrowsTo(child: YangRange, parent: YangRange) {
    parent != [] ==> child != [] && Subset(child, parent)
  }

  /** `child` allows no value that `parent` forbids. */
  ghost predicate Narrows(child: YangType, parent: YangType) {
    NarrowsTo(child.Range, parent.Range) && NarrowsTo(child.Length, parent.Length)
  }

  lemma NarrowsTransitive(a: YangType, b: YangType, c: YangType)
    requires Narrows(a, b) && Narrows(b, c)
    ensures Narrows(a, c)
  {
    hide Member;
  }

  lemma NarrowsReflexive(a: YangType)
    ensures Narrows(a, a)
  {
    hide Member;
  }

  lemma ParsedNotEmpty(y: YangRange, s: string, decimal: bool, fd: Digits)
    requires decimal || fd == 0
    requires ParseChildRanges(y, s, decimal, fd).Ok?
    ensures ParseChildRanges(y, s, decimal, fd).value != []
  {
    hide ParseParts, Split, Sort, CoalesceSpec, ContainsSpec, ValidateSpec, IsSorted;
    var p := ParseParts(y, Split(s, '|'), decimal, fd).value;
    PartsUniform(y, Split(s, '|'), decimal, fd);
    SortSorts(p, fd);
    assert |Sort(p)| == |multiset(Sort(p))| == |multiset(p)| == |p|;
    CoalesceNotEmpty(Sort(p));
  }

  lemma CoalesceNotEmpty(r: YangRange)
    requires r != []
    ensures CoalesceSpec(r) != []
  {
    hide Extend;
    if |r| >= 2 { CoalesceFromNotEmpty([r[0]], r[1..]); }
  }

  lemma {:induction false} CoalesceFromNotEmpty(done: YangRange, rest: YangRange)
    requires done != []
    ensures CoalesceFrom(done, rest) != []
    decreases rest
  {
    hide Extend;
    if rest != [] { CoalesceFromNotEmpty(Extend(done, rest[0]), rest[1..]); }
  }

  /** Lists of one precision are equal to the code only when they are the same. */
  lemma RangesEqualSame(r: YangRange, q: YangRange, fd: Digits)
    requires Uniform(r, fd) && Uniform(q, fd) && RangesEqual(r, q)
    ensures r == q
  {
    hide Numbers.Less;
    forall i | 0 <= i < |r|
      ensures r[i] == q[i]
    {
      LessIsKeyOrder(r[i].Min, q[i].Min);
      LessIsKeyOrder(q[i].Min, r[i].Min);
      LessIsKeyOrder(r[i].Max, q[i].Max);
      LessIsKeyOrder(q[i].Max, r[i].Max);
    }
  }

  /** `r` is what a restriction `text` of `parent` means. */
  ghost predicate IsRestriction(r: YangRange, parent: YangRange, text: string, decimal: bool, fd: Digits) {
    var parts := ParseParts(parent, Split(text, '|'), decimal, fd);
    && parts.Ok? && Uniform(r, fd)
    && SameValues(r, parts.value)
    && (Coalesced(r) <==> TopFree(Sort(parts.value)))
  }

  lemma ApplyRangeNarrows(y: YangType, s: Statement, decimal: bool)
    requires TypeOk(y) && (decimal || y.FractionDigits == 0)
    ensures var r := ApplyRange(y, s, decimal);
            && TypeOk(r.y) && r.y.FractionDigits == y.FractionDigits && r.y.Length == y.Length
            && r.y.Kind == y.Kind && NarrowsTo(r.y.Range, y.Range)
            && (r.ok && s.range.Some? ==> IsRestriction(r.y.Range, y.Range, s.range.value, decimal, y.FractionDigits))
  {
    hide ParseChildRanges, ParseParts, Split, Sort, Coalesced, TopFree, Uniform, Member, RangesEqual;
    if s.range.Some? {
      var yr := ParseChildRanges(y.Range, s.range.value, decimal, y.FractionDigits);
      if yr.Ok? {
        RestrictionNarrows(y.Range, s.range.value, decimal, y.FractionDigits);
        RestrictionHeaded(y.Range, s.range.value, decimal, y.FractionDigits);
        ParsedNotEmpty(y.Range, s.range.value, decimal, y.FractionDigits);
        if RangesEqual(yr.value, y.Range) { RangesEqualSame(yr.value, y.Range, y.FractionDigits); }
      }
    }
  }

  lemma LengthParentOk(y: YangType)
    requires TypeOk(y)
    ensures Uniform(LengthParent(y), 0) && LengthParent(y) != []
  {
  }

  lemma ApplyLengthNarrows(y: YangType, s: Statement)
    requires TypeOk(y)
    ensures var r := ApplyLength(y, s);
            && TypeOk(r.y) && r.y.FractionDigits == y.FractionDigits && r.y.Range == y.Range
            && r.y.Kind == y.Kind && NarrowsTo(r.y.Length, y.Length)
            && (r.ok && s.length.Some? ==> IsRestriction(r.y.Length, LengthParent(y), s.length.value, false, 0))
  {
    hide ParseChildRanges, ParseParts, Split, Sort, Coalesced, TopFree, Uniform, Member, RangesEqual;
    if s.length.Some? {
      LengthParentOk(y);
      var yr := ParseChildRanges(LengthParent(y), s.length.value, false, 0);
      if yr.Ok? {
        RestrictionNarrows(LengthParent(y), s.length.value, false, 0);
        RestrictionHeaded(LengthParent(y), s.length.value, false, 0);
        ParsedNotEmpty(LengthParent(y), s.length.value, false, 0);
        if RangesEqual(yr.value, y.Length) { RangesEqualSame(yr.value, y.Length, 0); }
      }
    }
  }

  /** The range the parts of a range statement are measured against. */
  function RangeParent(parent: YangType, s: Statement, direct: bool): YangRange {
    ApplyDigits(parent, s, direct).y.Range
  }

  /**
   A type only narrows its parent, error or not; and without an error its range
   and length are those its statement writes.
   */
  lemma DeriveNarrows(parent: YangType, s: Statement, direct: bool)
    requires TypeOk(parent) && (direct ==> Builtin(parent))
    ensures var d := Derive(parent, s, direct);
            && TypeOk(d.y) && Narrows(d.y, parent) && d.y.Kind == parent.Kind
            && (d.ok && s.range.Some? ==>
                  IsRestriction(d.y.Range, RangeParent(parent, s, direct), s.range.value,
                                TreatedAsDecimal(parent, direct), d.y.FractionDigits))
            && (d.ok && s.length.Some? ==> IsRestriction(d.y.Length, LengthParent(parent), s.length.value, false, 0))
  {
    hide Subset, IsRestriction, ApplyRange, ApplyLength, AsFractionDigits;
    var decimal := TreatedAsDecimal(parent, direct);
    if decimal && parent.FractionDigits != 0 && s.fractionDigits != None {
      NarrowsReflexive(parent);
    } else {
      var d := ApplyDigits(parent, s, direct);
      NarrowsReflexive(parent);
      ApplyRangeNarrows(d.y, s, decimal);
      ApplyLengthNarrows(ApplyRange(d.y, s, decimal).y, s);
    }
  }

  /**
   An accepted restriction is coalesced exactly if nothing follows a range that
   ends at 2^64-1, which no part above zero may do; up to there it always is.
   Below a parent without that value all of it is.
   */
  lemma RestrictionCoalesced(parent: YangRange, text: string, decimal: bool, fd: Digits)
    requires decimal || fd == 0
    requires Uniform(parent, fd) && ParseChildRanges(parent, text, decimal, fd).Ok?
    ensures var r := ParseChildRanges(parent, text, decimal, fd).value;
            var parts := ParseParts(parent, Split(text, '|'), decimal, fd);
            && parts.Ok? && Coalesced(Head(r)) && SameValues(r, Head(r))
            && (Coalesced(r) <==> Head(r) == r) && (Coalesced(r) <==> TopFree(Sort(parts.value)))
            && (parent != [] && (forall i :: 0 <= i < |parent| ==> !IsMax(parent[i].Max)) ==> Coalesced(r))
  {
    hide ParseParts, Split, Sort, Coalesced, IsSorted, Valid, Uniform, ParseChildRanges, TopFree;
    RestrictionNarrows(parent, text, decimal, fd);
    RestrictionHeaded(parent, text, decimal, fd);
    var r := ParseChildRanges(parent, text, decimal, fd).value;
    HeadHolds(r);
    if Coalesced(r) { CoalescedHead(r); }
    if parent != [] && forall i :: 0 <= i < |parent| ==> !IsMax(parent[i].Max) {
      NoTop(r, ParseParts(parent, Split(text, '|'), decimal, fd).value, parent, text, decimal, fd);
    }
  }

  /** No part ends at 2^64-1 where that is no value of the parent. */
  lemma NoTop(r: YangRange, p: YangRange, parent: YangRange, text: string, decimal: bool, fd: Digits)
    requires decimal || fd == 0
    requires ParseParts(parent, Split(text, '|'), decimal, fd) == Ok(p) && SameValues(r, p) && Subset(r, parent)
    requires forall i :: 0 <= i < |parent| ==> !IsMax(parent[i].Max)
    ensures TopFree(Sort(p))
  {
    hide ParseParts, Split, Sort, Coalesced, IsSorted, Valid, Uniform;
    PartsUniform(parent, Split(text, '|'), decimal, fd);
    SortSorts(p, fd);
    var sorted := Sort(p);
    SameMultisetMembers(p, sorted);
    forall k | 0 <= k < |sorted|
      ensures !IsMax(sorted[k].Max)
    {
      PartValid(sorted, k, fd);
      var v := Signed(sorted[k].Max);
      assert In(v, sorted[k]) && Member(v, sorted);
      assert Member(v, parent);
    }
  }

  lemma PartValid(r: YangRange, k: nat, fd: Digits)
    requires k < |r| && Uniform(r, fd) && AllValid(r)
    ensures Signed(r[k].Min) <= Signed(r[k].Max)
  {
    hide Valid;
    ValidSigned(r[k]);
  }

  // ---------------------------------------------------------------- chains of typedefs

  /** A typedef statement; `YangType` is filled in by Resolve. */
  class Typedef {
    const Type: Type
    ghost const depth: nat
    var YangType: Option<YangType>

    constructor (t: Type)
      ensures Type == t && depth == t.depth + 1 && YangType == None
    {
      Type := t;
      depth := t.depth + 1;
      YangType := None;
    }

    /** Chains of typedefs are finite. */
    ghost predicate Wf()
      decreases depth
    {
      Type.depth < depth && Type.Wf()
    }

    ghost function Footprint(): (f: set<object>)
      requires Wf()
      ensures this in f
      decreases depth
    {
      {this} + Type.Footprint()
    }

    /** The type this chain defines, whatever was resolved so far. */
    ghost function Final(): Resolved
      requires Wf()
      decreases depth
    {
      Type.Final()
    }

    /** What is filled in is what the chain defines. */
    ghost predicate Sound()
      requires Wf()
      reads Footprint()
      decreases depth
    {
      && (YangType.Some? ==> YangType.value == Final().y && Type.YangType.Some?)
      && Type.Sound()
    }

    method Resolve() returns (ok: bool)
      requires Wf() && Sound()
      modifies Footprint()
      ensures Sound()
      ensures old(YangType.Some?) ==> ok && YangType == old(YangType)
      ensures ok ==> YangType.Some?
      ensures ok || YangType == None
      ensures old(Type.YangType.Some?) ==> ok
      decreases depth
    {
      if YangType.Some? {
        return true;
      }
      BelowType(Type);
      ok := Type.Resolve();
      if !ok {
        return false;
      }
      YangType := Type.YangType;
      return true;
    }
  }

  /** A type statement, on a typedef or on a base type. */
  class Type {
    const typedef: Typedef?
    const base: YangType          // the base type, when there is no typedef
    const statement: Statement
    ghost const depth: nat
    var YangType: Option<YangType>

    constructor Direct(base: YangType, s: Statement)
      ensures typedef == null && this.base == base && statement == s && YangType == None && depth == 0
    {
      this.typedef := null;
      this.base := base;
      this.statement := s;
      this.depth := 0;
      this.YangType := None;
    }

    constructor Derived(td: Typedef, s: Statement)
      ensures typedef == td && statement == s && YangType == None && depth == td.depth + 1
    {
      this.typedef := td;
      this.base := NO_BASE;
      this.statement := s;
      this.depth := td.depth + 1;
      this.YangType := None;
    }

    ghost predicate Wf()
      decreases depth
    {
      if typedef == null then Builtin(base) && TypeOk(base)
      else typedef.depth < depth && typedef.Wf()
    }

    ghost function Footprint(): (f: set<object>)
      requires Wf()
      ensures this in f
      decreases depth
    {
      {this} + if typedef == null then {} else typedef.Footprint()
    }

    ghost function Final(): Resolved
      requires Wf()
      decreases depth
    {
      if typedef == null then Derive(base, statement, true)
      else Derive(typedef.Final().y, statement, false)
    }

    ghost predicate Sound()
      requires Wf()
      reads Footprint()
      decreases depth
    {
      && (YangType.Some? ==> YangType.value == Final().y)
      && (typedef != null ==> (YangType.Some? ==> typedef.YangType.Some?) && typedef.Sound())
    }

    /**
     Copies the type this one is based on and applies the statement to it. The
     type is filled in even when the statement is at fault; only the call that
     fills it in reports that.
     */
    method Resolve() returns (ok: bool)
      requires Wf() && Sound()
      modifies Footprint()
      ensures Sound()
      ensures old(YangType.Some?) ==> ok && YangType == old(YangType)
      ensures YangType.Some? || (!ok && typedef != null && typedef.YangType == None)
      ensures old(YangType) == None && YangType.Some? ==> ok == Final().ok
      decreases depth
    {
      hide Derive, Builtin, TypeOk;
      if YangType.Some? {
        return true;
      }
      if typedef == null {
        var d := Derive(base, statement, true);
        YangType := Some(d.y);
        return d.ok;
      }
      BelowTypedef(typedef);
      ok := typedef.Resolve();
      if !ok {
        return false;
      }
      var d := Derive(typedef.YangType.value, statement, false);
      YangType := Some(d.y);
      return d.ok;
    }

    /** The base type the chain ends at. */
    ghost function Ground(): YangType
      requires Wf()
      decreases depth
    {
      if typedef == null then base else assert typedef.Wf(); typedef.Type.Ground()
    }

    /** The type statement `n` typedefs further down the chain. */
    ghost function Ancestor(n: nat): Type?
      requires Wf()
      decreases depth
    {
      if n == 0 then this
      else if typedef == null then null
      else assert typedef.Wf(); typedef.Type.Ancestor(n - 1)
    }
  }

  // ---------------------------------------------------------------- a statement at fault

  /** An integer type from 0 to 10. */
  function Small(): YangType {
    YangType(Integer, 0, [YRange(Number(0, 0, false), Number(10, 0, false))], [])
  }

  /** The single value 20, which the small type forbids. */
  function Twenty(): YangRange {
    [YRange(Number(20, 0, false), Number(20, 0, false))]
  }

  function TooLarge(): Statement {
    Statement(None, Some(RangesString(Twenty())), None)
  }

  lemma SmallIsBuiltin()
    ensures Builtin(Small()) && TypeOk(Small())
  {
  }

  lemma TooLargeIsRefused()
    ensures !Derive(Small(), TooLarge(), true).ok
  {
    hide Member, RangesString, Derive, ParseParts;
    SmallIsBuiltin();
    DeriveNarrows(Small(), TooLarge(), true);
    var d := Derive(Small(), TooLarge(), true);
    if d.ok {
      TwentyParses();
      assert RangeParent(Small(), TooLarge(), true) == Small().Range;
      assert Member(20, Twenty()) by { TwentyIsNotSmall(); }
      assert Member(20, d.y.Range);
      TwentyIsNotSmall();
    }
  }

  lemma TwentyParses()
    ensures ParseParts(Small().Range, Split(RangesString(Twenty()), '|'), false, 0) == Ok(Twenty())
  {
    hide ParseParts, Split, RangeStrings, Numbers.Less;
    var r := Twenty();
    LessIsKeyOrder(r[0].Max, r[0].Min);
    PartsRoundTrip(Small().Range, r, 0);
    SplitJoin(RangeStrings(r), '|');
  }

  lemma TwentyIsNotSmall()
    ensures Member(20, Twenty()) && !Member(20, Small().Range)
  {
    assert In(20, Twenty()[0]);
  }

  /**
   A type at fault is filled in all the same: the first call reports it, the
   second does not, and neither does the typedef above it.
   */
  method RefusedThenAccepted() returns (first: bool, second: bool, above: bool)
    ensures !first && second && above
  {
    hide Derive, Builtin, TypeOk;
    SmallIsBuiltin();
    TooLargeIsRefused();
    var t := new Type.Direct(Small(), TooLarge());
    var td := new Typedef(t);
    first := t.Resolve();
    second := t.Resolve();
    above := td.Resolve();
  }

  /** A node is not part of the chain below it. */
  lemma {:induction false} BelowTypedef(td: Typedef)
    requires td.Wf()
    ensures forall o: Type :: o in td.Footprint() ==> o.depth < td.depth
    ensures forall o: Typedef :: o in td.Footprint() ==> o.depth <= td.depth
    decreases td.depth
  {
    BelowType(td.Type);
  }

  lemma {:induction false} BelowType(t: Type)
    requires t.Wf()
    ensures forall o: Type :: o in t.Footprint() ==> o.depth <= t.depth
    ensures forall o: Typedef :: o in t.Footprint() ==> o.depth < t.depth
    decreases t.depth
  {
    if t.typedef != null { BelowTypedef(t.typedef); }
  }

  lemma {:induction false} AncestorWf(t: Type, n: nat)
    requires t.Wf() && t.Ancestor(n) != null
    ensures t.Ancestor(n).Wf()
    decreases n
  {
    hide Builtin, TypeOk;
    if n > 0 { AncestorWf(t.typedef.Type, n - 1); }
  }

  lemma {:induction false} FinalOk(t: Type)
    requires t.Wf()
    ensures TypeOk(t.Final().y)
    decreases t.depth
  {
    hide Derive, Builtin, TypeOk, Narrows;
    if t.typedef == null {
      DeriveNarrows(t.base, t.statement, true);
    } else {
      FinalOk(t.typedef.Type);
      DeriveNarrows(t.typedef.Final().y, t.statement, false);
    }
  }

  /** Along a chain of any length, a type allows no value that an ancestor forbids. */
  lemma {:induction false} ChainNarrows(t: Type, n: nat)
    requires t.Wf() && t.Ancestor(n) != null
    ensures t.Ancestor(n).Wf() && Narrows(t.Final().y, t.Ancestor(n).Final().y)
    decreases n
  {
    hide Derive, Builtin, TypeOk, Narrows;
    AncestorWf(t, n);
    if n == 0 {
      NarrowsReflexive(t.Final().y);
    } else {
      var up := t.typedef.Type;
      FinalOk(up);
      DeriveNarrows(up.Final().y, t.statement, false);
      assert t.Final() == Derive(up.Final().y, t.statement, false);
      ChainNarrows(up, n - 1);
      assert t.Ancestor(n) == up.Ancestor(n - 1);
      NarrowsTransitive(t.Final().y, up.Final().y, t.Ancestor(n).Final().y);
    }
  }

  /** And none that the base type at the end of the chain forbids. */
  lemma {:induction false} ChainNarrowsGround(t: Type)
    requires t.Wf()
    ensures Narrows(t.Final().y, t.Ground()) && t.Final().y.Kind == t.Ground().Kind
    decreases t.depth
  {
    hide Derive, Builtin, TypeOk, Narrows;
    if t.typedef == null {
      DeriveNarrows(t.base, t.statement, true);
    } else {
      var up := t.typedef.Type;
      FinalOk(up);
      DeriveNarrows(up.Final().y, t.statement, false);
      assert t.Final() == Derive(up.Final().y, t.statement, false);
      ChainNarrowsGround(up);
      NarrowsTransitive(t.Final().y, up.Final().y, t.Ground());
    }
  }

  /** So every type that was filled in narrows all its ancestors, which were filled in too. */
  lemma {:induction false} ResolvedNarrows(t: Type, n: nat)
    requires t.Wf() && t.Sound() && t.YangType.Some? && t.Ancestor(n) != null
    ensures t.Ancestor(n).YangType.Some?
    ensures Narrows(t.YangType.value, t.Ancestor(n).YangType.value)
  {
    hide Derive, Builtin, TypeOk, Narrows;
    AncestorResolved(t, n);
    ChainNarrows(t, n);
  }

  lemma {:induction false} AncestorResolved(t: Type, n: nat)
    requires t.Wf() && t.Sound() && t.YangType.Some? && t.Ancestor(n) != null
    ensures var a := t.Ancestor(n);
            a.Wf() && a.YangType.Some? && a.YangType.value == a.Final().y
    decreases n
  {
    hide Derive, Builtin, TypeOk;
    if n > 0 { AncestorResolved(t.typedef.Type, n - 1); }
  }
}
