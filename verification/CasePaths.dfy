/**
 Which schema paths lead where after FixChoice has inserted the missing cases
 (pkg/yang/entry.go), and what that means for the augments the loop of
 pkg/yang/modules.go left over.
 */
module CasePaths {
  import Text
  import opened Wrappers
  import opened Trees
  import opened Choices
  import opened Paths
  import opened Augments

  /** The child `k` of `t` is one that FixChoice puts into a case. */
  predicate Bare(t: Tree, k: string)
    requires k in t.Dir
  {
    Repairs(t) && t.Dir[k].info.Kind != Case
  }

  /** The path `p` with the name of every bare child doubled: its case comes first. */
  function Lift(t: Tree, p: Path): Path
    decreases |p|
  {
    if p == [] then []
    else if p[0] !in t.Dir then p
    else (if Bare(t, p[0]) then [p[0], p[0]] else [p[0]]) + Lift(t.Dir[p[0]], p[1..])
  }

  /** `p` leads to a node of `t`, or to a case for one, when each bare child it goes through comes after its case. */
  predicate Spelled(t: Tree, p: Path)
    decreases |p|
  {
    p == [] ||
    (p[0] in t.Dir &&
     if Bare(t, p[0]) then |p| == 1 || (p[1] == p[0] && Spelled(t.Dir[p[0]], p[2..]))
     else Spelled(t.Dir[p[0]], p[1..]))
  }

  /** `p` steps on a bare child, where FixChoice inserts a case. */
  predicate Crosses(t: Tree, p: Path)
    decreases |p|
  {
    p != [] && p[0] in t.Dir && (Bare(t, p[0]) || Crosses(t.Dir[p[0]], p[1..]))
  }

  lemma FixedDir(t: Tree, k: string)
    requires Keyed(t) && k in t.Dir
    ensures var d := Fixed(t).Dir;
            && k in d
            && if Bare(t, k) then d[k].Dir == map[k := Fixed(t.Dir[k])] else d[k] == Fixed(t.Dir[k])
  {
    hide Fixed;
    FixedShape(t);
  }

  /** The node at `p` is found at the lifted path, and a path that leads nowhere still does. */
  lemma {:induction false} LiftedNode(t: Tree, p: Path)
    requires Keyed(t)
    ensures At(Fixed(t), Lift(t, p)) == if Has(t, p) then Some(Fixed(At(t, p).value)) else None
    decreases |p|
  {
    hide Fixed;
    FixedShape(t);
    if p != [] && p[0] in t.Dir {
      var k := p[0];
      var rest := Lift(t.Dir[k], p[1..]);
      FixedDir(t, k);
      LiftedNode(t.Dir[k], p[1..]);
      if Bare(t, k) {
        assert [k, k] + rest == [k] + ([k] + rest);
        AtFirst(Fixed(t), k, [k] + rest);
        AtFirst(Fixed(t).Dir[k], k, rest);
      } else {
        AtFirst(Fixed(t), k, rest);
      }
    }
  }

  /** After FixChoice a path leads to a node exactly when it is spelled with the cases. */
  lemma {:induction false} SpelledExists(t: Tree, p: Path)
    requires Keyed(t)
    ensures Has(Fixed(t), p) <==> Spelled(t, p)
    decreases |p|
  {
    hide Fixed;
    FixedShape(t);
    if p != [] && p[0] in t.Dir {
      var k := p[0];
      FixedDir(t, k);
      assert p == [k] + p[1..];
      AtFirst(Fixed(t), k, p[1..]);
      if Bare(t, k) {
        if |p| > 1 {
          assert p[1..] == [p[1]] + p[2..];
          AtFirst(Fixed(t).Dir[k], p[1], p[2..]);
          if p[1] == k { SpelledExists(t.Dir[k], p[2..]); }
        }
      } else {
        SpelledExists(t.Dir[k], p[1..]);
      }
    }
  }

  /** Off the bare children nothing changes. */
  lemma {:induction false} OffTheCases(t: Tree, p: Path)
    requires !Crosses(t, p)
    ensures (Spelled(t, p) <==> Has(t, p)) && Lift(t, p) == p
    decreases |p|
  {
    if p != [] && p[0] in t.Dir {
      OffTheCases(t.Dir[p[0]], p[1..]);
      assert p == [p[0]] + p[1..];
    }
  }

  /** A path to a node keeps its meaning exactly when it steps on no bare child. */
  lemma {:induction false} LiftChanges(t: Tree, p: Path)
    requires Has(t, p)
    ensures Lift(t, p) == p <==> !Crosses(t, p)
    ensures |Lift(t, p)| >= |p|
    decreases |p|
  {
    if p != [] {
      LiftChanges(t.Dir[p[0]], p[1..]);
      if !Crosses(t, p) {
        OffTheCases(t, p);
      } else if !Bare(t, p[0]) {
        assert Lift(t, p)[1..] == Lift(t.Dir[p[0]], p[1..]);
      }
    }
  }

  /**
   A path that goes on below a bare child, the first it steps on, leads to a
   node afterwards only if the next name is that of the child once more.
   */
  lemma {:induction false} BelowBareChild(t: Tree, a: Path, k: string, b: Path)
    requires Keyed(t) && Has(t, a) && !Crosses(t, a) && k in At(t, a).value.Dir && Bare(At(t, a).value, k) && b != []
    ensures Has(Fixed(t), a + [k] + b) <==> b[0] == k && Has(Fixed(At(t, a).value.Dir[k]), b[1..])
    decreases |a|
  {
    hide Fixed;
    if a == [] {
      assert a + [k] + b == [k] + b;
      FixedDir(t, k);
      AtFirst(Fixed(t), k, b);
      assert b == [b[0]] + b[1..];
      AtFirst(Fixed(t).Dir[k], b[0], b[1..]);
    } else {
      var c := t.Dir[a[0]];
      BelowBareChild(c, a[1..], k, b);
      FixedDir(t, a[0]);
      assert a + [k] + b == [a[0]] + (a[1..] + [k] + b);
      AtFirst(Fixed(t), a[0], a[1..] + [k] + b);
    }
  }

  // ---------------------------------------------------------------- names with several parts

  /** Every place the parts lead through from `p` on is spelled with the cases. */
  predicate SpelledAlong(t: Tree, p: Path, parts: seq<string>)
    decreases |parts|
  {
    parts == [] ||
    var s := Heading(p, parts[0]);
    s.Some? && Spelled(t, s.value) && SpelledAlong(t, s.value, parts[1..])
  }

  /** Some place on the way is past a bare child. */
  predicate CrossesAlong(t: Tree, p: Path, parts: seq<string>)
    decreases |parts|
  {
    parts != [] &&
    var s := Heading(p, parts[0]);
    s.Some? && (Crosses(t, s.value) || CrossesAlong(t, s.value, parts[1..]))
  }

  /** After FixChoice a name is found exactly when it is spelled with the cases all along. */
  lemma {:induction false} FoundAfterwards(t: Tree, p: Path, parts: seq<string>)
    requires Keyed(t) && Has(Fixed(t), p)
    ensures Resolve(Fixed(t), p, parts).Some? <==> SpelledAlong(t, p, parts)
    decreases |parts|
  {
    hide Fixed, Spelled, Has, Step, Heading;
    if parts != [] {
      StepFound(Fixed(t), p, parts[0]);
      var s := Heading(p, parts[0]);
      if s.Some? {
        SpelledExists(t, s.value);
        if Has(Fixed(t), s.value) { FoundAfterwards(t, s.value, parts[1..]); }
      }
    }
  }

  /** A name that stays off the bare children is found afterwards exactly when it was before. */
  lemma {:induction false} FoundAsBefore(t: Tree, p: Path, parts: seq<string>)
    requires Has(t, p) && !CrossesAlong(t, p, parts)
    ensures Resolve(t, p, parts).Some? <==> SpelledAlong(t, p, parts)
    decreases |parts|
  {
    hide Spelled, Crosses, Has, Step, Heading;
    if parts != [] {
      StepFound(t, p, parts[0]);
      var s := Heading(p, parts[0]);
      if s.Some? {
        OffTheCases(t, s.value);
        if Has(t, s.value) { FoundAsBefore(t, s.value, parts[1..]); }
      }
    }
  }

  // ---------------------------------------------------------------- augments left over

  /** The modules of `order` with their missing cases. */
  ghost function FixedIn(f: Forest, order: seq<string>): Forest {
    map m | m in f :: if m in order then Fixed(f[m]) else f[m]
  }

  /** The name of the augment leads to a node when its bare children come after their cases. */
  predicate SpelledName(f: Forest, a: Augment) {
    var m := Start(a);
    m.Some? && m.value in f && SpelledAlong(f[m.value], [], Parts(a))
  }

  /** The name goes past a bare child, where FixChoice inserts a case. */
  predicate CrossesCase(f: Forest, a: Augment) {
    var m := Start(a);
    m.Some? && m.value in f && CrossesAlong(f[m.value], [], Parts(a))
  }

  /** Every tree is filed by names, as those of entries are. */
  predicate AllKeyed(f: Forest) {
    forall m :: m in f ==> Keyed(f[m])
  }

  /** Once all modules have their cases, an augment has a target exactly when its name is spelled with them. */
  lemma TargetAfterwards(f: Forest, order: seq<string>, a: Augment)
    requires AllKeyed(f) && forall m :: m in f ==> m in order
    ensures Target(FixedIn(f, order), a).Some? <==> SpelledName(f, a)
  {
    hide Fixed, Resolve, SpelledAlong, Start, Parts;
    var m := Start(a);
    if m.Some? && m.value in f {
      FoundAfterwards(f[m.value], [], Parts(a));
    }
  }

  /**
   An augment that a complete run left without a target gets one from the
   inserted cases exactly when its name is spelled with them, and then it goes
   past one of them.
   */
  lemma LeftOver(f: Forest, all: seq<Augment>, run: seq<nat>, order: seq<string>, i: nat)
    requires Complete(f, all, run) && i < |all| && i !in run
    requires var g := After(f, all, run).value; AllKeyed(g) && forall m :: m in g ==> m in order
    ensures var g := After(f, all, run).value;
            && (Target(FixedIn(g, order), all[i]).Some? <==> SpelledName(g, all[i]))
            && (SpelledName(g, all[i]) ==> CrossesCase(g, all[i]))
  {
    hide After, FixedIn, SpelledAlong, CrossesAlong, Resolve, Start, Parts;
    var g, a := After(f, all, run).value, all[i];
    TargetAfterwards(g, order, a);
    if SpelledName(g, a) && !CrossesCase(g, a) {
      FoundAsBefore(g[Start(a).value], [], Parts(a));
    }
  }
}
