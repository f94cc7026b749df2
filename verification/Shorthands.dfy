/**
 A small schema with a shorthand choice: what the last loop of Process
 (pkg/yang/modules.go) makes of an augment that goes through its implicit case.
 */
module Shorthands {
  import Text
  import opened Wrappers
  import opened Trees
  import opened Choices
  import opened Paths
  import opened Augments
  import opened Confluence
  import opened Notes
  import opened Schedules
  import opened CasePaths
  import opened LateAugments
  import opened LateOrders
  import opened LateCases

  // ---------------------------------------------------------------- names

  /** An absolute name of parts without slashes is read as those parts. */
  lemma Slashed(parts: seq<string>, name: string)
    requires parts != [] && (forall p :: p in parts ==> '/' !in p) && name == "/" + Text.Join(parts, "/")
    ensures PartsOf(name) == parts
  {
    var whole := [""] + parts;
    assert whole[1..] == parts && "" + "/" + Text.Join(parts, "/") == name;
    Text.SplitJoin(whole, '/');
  }

  /** An augment whose name spells out the path `p` of module `m`. */
  predicate SpellsPlace(a: Augment, m: string, p: Path) {
    Start(a) == Some(m) && Spells(Parts(a), p)
  }

  lemma NamedTarget(f: Forest, a: Augment, m: string, p: Path)
    requires SpellsPlace(a, m, p)
    ensures Goal(a) == Some(Place(m, p))
    ensures Target(f, a) == if Exists(f, Place(m, p)) then Some(Place(m, p)) else None
  {
    hide Spells, Parts, Start;
    assert [] + p == p;
    PlainAims([], Parts(a), p);
    if m in f { PlainLeads(f[m], [], Parts(a), p); }
  }

  lemma Bare1(c: char)
    requires c != ':'
    ensures LocalName([c]) == [c] && PrefixOf([c]) == ""
  {
    hide Text.IndexOf;
    assert [c][0..][0] == c;
    assert !Text.At([c], 0, ":");
  }

  // ---------------------------------------------------------------- one augment

  function Box(name: string, dir: map<string, Tree>): Tree {
    Fresh(name, Directory, dir)
  }

  /** A module with a choice `c` that has a bare container `x`. */
  function Shorthand(): Tree {
    Box("m", map["c" := Fresh("c", Choice, map["x" := Box("x", map[])])])
  }

  /** A name through the implicit case, as section 7.9.2 of RFC 7950 wants it. */
  function ThroughCase(body: Tree): seq<Augment> {
    [Augment("m", "/c/x/x", map[], "urn:m", body)]
  }

  const X: Path := ["c", "x", "x"]

  lemma ThroughCaseNames(body: Tree)
    ensures SpellsPlace(ThroughCase(body)[0], "m", X)
  {
    hide LocalName, PrefixOf, PartsOf;
    var c := ["x", "x"];
    assert X[1..] == c && c[1..] == ["x"] && Text.Join(c, "/") == "x/x" && Text.Join(X, "/") == "c/x/x";
    Slashed(X, "/c/x/x");
    Bare1('c');
    Bare1('x');
    assert PartsOf("/c/x/x") == X;
    SpellsX(X);
  }

  /** Three parts that name the container in its case. */
  lemma SpellsX(parts: seq<string>)
    requires |parts| == 3 && LocalName(parts[0]) == "c" && LocalName(parts[1]) == "x" && LocalName(parts[2]) == "x"
    requires forall k :: 0 <= k < 3 ==> parts[k] !in [".", ".."]
    ensures Spells(parts, X)
  {
    hide LocalName;
    assert X[0] == "c" && X[1] == "x" && X[2] == "x";
  }

  /** Where the nodes are, before and after the cases are inserted. */
  lemma ShorthandPaths()
    ensures var t := Shorthand(); Keyed(t) && !Has(t, X) && Has(Fixed(t), X) && forall k :: !Has(Fixed(t), X + [k])
  {
    hide Fixed, Shorthand, Spelled, Has;
    var t := Shorthand();
    ShorthandIsKeyed();
    NotYetThere();
    SpelledExists(t, X);
    forall k
      ensures !Has(Fixed(t), X + [k])
    {
      NothingUnder(k);
      SpelledExists(t, X + [k]);
    }
  }

  lemma ShorthandIsKeyed()
    ensures Keyed(Shorthand())
  {
    var c := Shorthand().Dir["c"];
    assert Keyed(c.Dir["x"]) && Keyed(c);
  }

  lemma NotYetThere()
    ensures !Has(Shorthand(), X) && Spelled(Shorthand(), X)
  {
    var c := Shorthand().Dir["c"];
    assert X[1..] == ["x", "x"] && ["x", "x"][1..] == ["x"] && ["x", "x"][2..] == [];
    assert At(c.Dir["x"], ["x"]) == None && At(c, ["x", "x"]) == None;
    assert Spelled(c, ["x", "x"]);
  }

  lemma NothingUnder(k: string)
    ensures !Spelled(Shorthand(), X + [k])
  {
    var c, p := Shorthand().Dir["c"], X + [k];
    assert p[1..] == ["x", "x", k] && p[1..][2..] == [k];
    assert !Spelled(c.Dir["x"], [k]);
    assert !Spelled(c, ["x", "x", k]);
  }

  /** The schema once the module has its cases. */
  ghost function Repaired1(): Forest {
    map["m" := Fixed(Shorthand())]
  }

  /** The loop leaves the augment, and the last loop applies it. */
  lemma ImplicitCaseIsLate(body: Tree)
    ensures Complete(map["m" := Shorthand()], ThroughCase(body), [])
    ensures FixedIn(map["m" := Shorthand()], ["m"]) == Repaired1()
    ensures Ending(Repaired1(), ThroughCase(body), map["m" := [0]], ["m"]).run == [0]
  {
    hide *;
    OneAugment(body);
    ThroughCaseNames(body);
    ShorthandPaths();
    LeftByLoop(body);
    FixedAlone();
    TakenLate(body);
  }

  lemma LeftByLoop(body: Tree)
    requires |ThroughCase(body)| == 1 && SpellsPlace(ThroughCase(body)[0], "m", X) && !Has(Shorthand(), X)
    ensures Complete(map["m" := Shorthand()], ThroughCase(body), [])
  {
    hide Target, Goal, Shorthand, SpellsPlace, ThroughCase, Has;
    NamedTarget(map["m" := Shorthand()], ThroughCase(body)[0], "m", X);
    NoneTwice();
  }

  lemma FixedAlone()
    ensures FixedIn(map["m" := Shorthand()], ["m"]) == Repaired1()
  {
    hide Fixed;
  }

  lemma TakenLate(body: Tree)
    requires |ThroughCase(body)| == 1 && SpellsPlace(ThroughCase(body)[0], "m", X) && Has(Fixed(Shorthand()), X)
    ensures Ending(Repaired1(), ThroughCase(body), map["m" := [0]], ["m"]).run == [0]
  {
    hide Target, Goal, Shorthand, SpellsPlace, ThroughCase, Has, Fixed, Sweep, Ending;
    var all := ThroughCase(body);
    NamedTarget(Repaired1(), all[0], "m", X);
    OneTurn(Repaired1(), all, map["m" := [0]], "m");
    SweepOne(Repaired1(), all, 0);
  }

  /** A last loop over one module. */
  lemma OneTurn(h: Forest, all: seq<Augment>, waiting: map<string, seq<nat>>, q: string)
    requires q in waiting
    ensures var s, end := Sweep(h, all, waiting[q]), Ending(h, all, waiting, [q]);
            end.run == s.applied && end.schema == s.schema
  {
    hide Sweep, Note, Tried, Missed, Retry;
    var st := State(h, [], waiting, [q], map[]);
    RetryNone(st, all);
    RetrySnoc(st, all, [], q);
    assert [] + [q] == [q] && [] + Sweep(h, all, waiting[q]).applied == Sweep(h, all, waiting[q]).applied;
  }

  lemma OneAugment(body: Tree)
    ensures |ThroughCase(body)| == 1 && ThroughCase(body)[0].body == body
  {
  }

  /** A body that is a choice `d` with a bare leaf `e`. */
  function BareBody(): Tree {
    Box("", map["d" := Fresh("d", Choice, map["e" := Fresh("e", Leaf, map[])])])
  }

  /** With that body, a choice without errors ends with a bare child. */
  lemma BareInTheEnd()
    ensures AllOnlyCases(Repaired1())
    ensures !AllOnlyCases(Ending(Repaired1(), ThroughCase(BareBody()), map["m" := [0]], ["m"]).schema)
  {
    hide Fixed, Target, Goal, Shorthand, SpellsPlace, ThroughCase, BareBody, Has;
    hide AllOnlyCases, AddsBare, Applied, Sweep, After, Ending;
    var h, all, x := Repaired1(), ThroughCase(BareBody()), Place("m", X);
    OneAugment(BareBody());
    ThroughCaseNames(BareBody());
    ShorthandPaths();
    NamedTarget(h, all[0], "m", X);
    OneTurn(h, all, map["m" := [0]], "m");
    SweepOne(h, all, 0);
    var e := Applied(h, all[0], x);
    AfterNothing(h, all);
    AfterOneMore(h, all, [], h, 0);
    assert [] + [0] == [0];
    RepairedCases();
    OneRun(h, all);
    CasesStay(h, all, [0]);
    AddsBareLeaf(h, e, all[0]);
    assert AddsBare(h, e, all[0], Place("m", X + ["d", "e"]));
  }

  lemma RepairedCases()
    ensures AllOnlyCases(Repaired1())
  {
    hide Fixed, OnlyCases;
    FixedHasOnlyCases(Shorthand());
  }

  lemma OneRun(h: Forest, all: seq<Augment>)
    ensures Once([0]) && NoClash(h, all, [0])
  {
    hide Adds;
  }

  lemma AddsBareLeaf(h: Forest, e: Forest, a: Augment)
    requires a.body == BareBody() && Goal(a) == Some(Place("m", X)) && Target(h, a) == Some(Place("m", X))
    requires e == Applied(h, a, Place("m", X)) && forall k :: !Exists(h, Place("m", X + [k]))
    ensures AddsBare(h, e, a, Place("m", X + ["d", "e"]))
  {
    hide Target, Goal, Applied, Exists, Node, SameFields, BareBody;
    var y, z := Place("m", X + ["d"]), Place("m", X + ["d", "e"]);
    assert y.path[3..] == ["d"] && z.path[3..] == ["d", "e"] && z.path[3] == "d" && Up(z) == y by {
      assert z.path[..4] == y.path;
    }
    BareBodyHas();
    assert Brings(a, y) && Brings(a, z) && Top(a, y) == y && Top(a, z) == y;
    AppliedNodes(h, a, Place("m", X), y);
    AppliedNodes(h, a, Place("m", X), z);
    SameFieldsMeans();
  }

  lemma BareBodyHas()
    ensures var b := BareBody();
            && Has(b, ["d"]) && Has(b, ["d", "e"])
            && At(b, ["d"]).value.info.Kind == Choice && At(b, ["d"]).value.Errors == multiset{}
            && At(b, ["d", "e"]).value.info.Kind == Leaf
  {
    assert ["d"][1..] == [] && ["d", "e"][1..] == ["e"] && ["e"][1..] == [];
  }
}
