/**
 Three augments below the implicit case of a shorthand choice, each of which
 goes on where the one before ends: what the last loop of Process
 (pkg/yang/modules.go) makes of them, by the order of the modules.
 */
module Chains {
  import Text
  import opened Wrappers
  import opened Trees
  import opened Choices
  import opened Paths
  import opened Augments
  import opened Confluence
  import opened Notes
  import opened Supplies
  import opened Schedules
  import opened CasePaths
  import opened LateAugments
  import opened Remainders
  import opened Gathers
  import opened LateOrders
  import opened LateReports
  import opened Shorthands

  /** The module, and two that import it. */
  function Importers(): Forest {
    map["m" := Shorthand(), "p" := Box("p", map[]), "q" := Box("q", map[])]
  }

  ghost function Repaired3(): Forest {
    map["m" := Fixed(Shorthand()), "p" := Box("p", map[]), "q" := Box("q", map[])]
  }

  /** A body with one child. */
  function Gives(k: string): Tree {
    Box("", map[k := Box(k, map[])])
  }

  /**
   Module q gives the container a child `y` through its implicit case, and that
   child a child `z`. Module p gives `z` a child.
   */
  function Chain(): seq<Augment> {
    var imports := map["m" := "m"];
    [Augment("q", "/m:c/m:x/m:x", imports, "urn:q", Gives("y")),
     Augment("q", "/m:c/m:x/m:x/m:y", imports, "urn:q", Gives("z")),
     Augment("p", "/m:c/m:x/m:x/m:y/m:z", imports, "urn:p", Gives("w"))]
  }

  /** The augments of module q in the order of its statements. */
  function Lists(own: seq<nat>): map<string, seq<nat>> {
    map["p" := [2], "q" := own]
  }

  const Y: Path := ["c", "x", "x", "y"]
  const Z: Path := ["c", "x", "x", "y", "z"]
  const W: Path := ["c", "x", "x", "y", "z", "w"]

  // ---------------------------------------------------------------- names

  lemma Prefixed1(c: char)
    ensures PrefixOf(['m', ':', c]) == "m" && LocalName(['m', ':', c]) == [c]
  {
    hide Text.IndexOf;
    var s := ['m', ':', c];
    assert s[1..][0] == ':' && s[0..][0] == 'm';
    assert Text.At(s, 1, ":") && !Text.At(s, 0, ":");
    assert s[..1] == "m" && s[2..] == [c];
  }

  lemma ThreeParts()
    ensures PartsOf("/m:c/m:x/m:x") == ["m:c", "m:x", "m:x"]
  {
    var a, b, c := ["m:c", "m:x", "m:x"], ["m:x", "m:x"], ["m:x"];
    assert a[1..] == b && b[1..] == c && Text.Join(c, "/") == "m:x" && Text.Join(b, "/") == "m:x/m:x";
    assert Text.Join(a, "/") == "m:c/m:x/m:x";
    Slashed(a, "/m:c/m:x/m:x");
  }

  lemma FourParts()
    ensures PartsOf("/m:c/m:x/m:x/m:y") == ["m:c", "m:x", "m:x", "m:y"]
  {
    var d, e, f := ["m:c", "m:x", "m:x", "m:y"], ["m:x", "m:x", "m:y"], ["m:x", "m:y"];
    assert d[1..] == e && e[1..] == f && f[1..] == ["m:y"] && Text.Join(f, "/") == "m:x/m:y";
    assert Text.Join(e, "/") == "m:x/m:x/m:y" && Text.Join(d, "/") == "m:c/m:x/m:x/m:y";
    Slashed(d, "/m:c/m:x/m:x/m:y");
  }

  lemma FiveParts()
    ensures PartsOf("/m:c/m:x/m:x/m:y/m:z") == ["m:c", "m:x", "m:x", "m:y", "m:z"]
  {
    hide Text.Join, Text.Split;
    var d := ["m:c", "m:x", "m:x", "m:y", "m:z"];
    FiveJoined();
    assert "/" + "m:c/m:x/m:x/m:y/m:z" == "/m:c/m:x/m:x/m:y/m:z";
    Slashed(d, "/m:c/m:x/m:x/m:y/m:z");
  }

  lemma FiveJoined()
    ensures Text.Join(["m:c", "m:x", "m:x", "m:y", "m:z"], "/") == "m:c/m:x/m:x/m:y/m:z"
  {
    hide Text.Join;
    JoinMore("m:z", []);
    JoinMore("m:y", ["m:z"]);
    JoinMore("m:x", ["m:y", "m:z"]);
    JoinMore("m:x", ["m:x", "m:y", "m:z"]);
    JoinMore("m:c", ["m:x", "m:x", "m:y", "m:z"]);
    assert ["m:z"] == ["m:z"] + [] && ["m:y", "m:z"] == ["m:y"] + ["m:z"];
    assert ["m:x", "m:y", "m:z"] == ["m:x"] + ["m:y", "m:z"];
    assert ["m:x", "m:x", "m:y", "m:z"] == ["m:x"] + ["m:x", "m:y", "m:z"];
    assert ["m:c", "m:x", "m:x", "m:y", "m:z"] == ["m:c"] + ["m:x", "m:x", "m:y", "m:z"];
  }

  lemma JoinMore(x: string, rest: seq<string>)
    ensures Text.Join([x] + rest, "/") == if rest == [] then x else x + "/" + Text.Join(rest, "/")
  {
    assert ([x] + rest)[1..] == rest;
  }

  /** One more part for one more name. */
  lemma SpellsMore(parts: seq<string>, p: Path, part: string, k: string)
    requires Spells(parts, p) && LocalName(part) == k && part !in [".", ".."] && k !in ["", ".", ".."]
    ensures Spells(parts + [part], p + [k])
  {
    hide LocalName;
  }

  lemma ChainNames()
    ensures var all := Chain();
            |all| == 3 && SpellsPlace(all[0], "m", X) && SpellsPlace(all[1], "m", Y) && SpellsPlace(all[2], "m", Z)
  {
    hide LocalName, PrefixOf, PartsOf, Spells;
    ThreeParts();
    FourParts();
    FiveParts();
    Prefixed1('c');
    Prefixed1('x');
    Prefixed1('y');
    Prefixed1('z');
    assert "m:c" == ['m', ':', 'c'] && "m:x" == ['m', ':', 'x'];
    assert "m:y" == ['m', ':', 'y'] && "m:z" == ['m', ':', 'z'];
    var three := ["m:c", "m:x", "m:x"];
    assert X + ["y"] == Y && Y + ["z"] == Z;
    SpellsX(three);
    SpellsMore(three, X, "m:y", "y");
    SpellsMore(three + ["m:y"], Y, "m:z", "z");
    assert three + ["m:y"] == ["m:c", "m:x", "m:x", "m:y"];
    assert three + ["m:y"] + ["m:z"] == ["m:c", "m:x", "m:x", "m:y", "m:z"];
  }

  // ---------------------------------------------------------------- places

  lemma Inside(t: Tree, p: Path, k: string)
    ensures Has(t, p + [k]) ==> Has(t, p)
  {
    if Has(t, p + [k]) { HasPrefix(t, p, [k]); }
  }

  /** Where the nodes are once the cases are in, and that none of them is there before. */
  lemma ChainPlaces()
    ensures var f, h := Importers(), Repaired3();
            && !Exists(f, Place("m", X)) && !Exists(f, Place("m", Y)) && !Exists(f, Place("m", Z))
            && Exists(h, Place("m", X)) && !Exists(h, Place("m", Y)) && !Exists(h, Place("m", Z))
            && !Exists(h, Place("m", W))
  {
    hide Fixed, Has, Shorthand;
    ShorthandPaths();
    assert X + ["y"] == Y && Y + ["z"] == Z && Z + ["w"] == W;
    Inside(Shorthand(), X, "y");
    Inside(Shorthand(), Y, "z");
    Inside(Fixed(Shorthand()), Y, "z");
    Inside(Fixed(Shorthand()), Z, "w");
  }

  lemma OnTheWay(k: nat)
    requires k <= |X|
    ensures Exists(Repaired3(), Place("m", X[..k]))
  {
    hide Fixed, Shorthand, Has;
    ShorthandPaths();
    assert X == X[..k] + X[k..];
    HasPrefix(Fixed(Shorthand()), X[..k], X[k..]);
  }

  /** Such an augment adds one place. */
  lemma AddsOne(h: Forest, a: Augment, p: Path, k: string, z: Place)
    requires SpellsPlace(a, "m", p) && a.body == Gives(k) && !Exists(h, Place("m", p + [k]))
    ensures Adds(h, a, z) <==> z == Place("m", p + [k])
  {
    hide SpellsPlace, Goal, Exists;
    NamedTarget(h, a, "m", p);
    var y := Place("m", p + [k]);
    assert y.path[|p|..] == [k] + [] == [k] && (p + [k])[|p|] == k;
    AtFirst(a.body, k, []);
    assert Brings(a, y) && Top(a, y) == y;
    if Brings(a, z) {
      var s := z.path[|p|..];
      assert z.path == p + s && s == [s[0]] + s[1..];
      AtFirst(a.body, s[0], s[1..]);
      assert s == [k];
    }
  }

  lemma ChainAdds(z: Place)
    ensures var h, all := Repaired3(), Chain();
            && |all| == 3
            && (Adds(h, all[0], z) <==> z == Place("m", Y)) && (Adds(h, all[1], z) <==> z == Place("m", Z))
            && (Adds(h, all[2], z) <==> z == Place("m", W))
  {
    hide Adds, SpellsPlace, Exists, Fixed, Shorthand, Gives;
    ChainNames();
    ChainPlaces();
    var h, all := Repaired3(), Chain();
    assert X + ["y"] == Y && Y + ["z"] == Z && Z + ["w"] == W;
    AddsOne(h, all[0], X, "y", z);
    AddsOne(h, all[1], Y, "z", z);
    AddsOne(h, all[2], Z, "w", z);
  }

  lemma ChainFair(own: seq<nat>, mods: seq<string>)
    requires own in [[0, 1], [1, 0]] && forall m :: m in mods ==> m in ["p", "q"]
    ensures Fair(Repaired3(), Chain(), Lists(own), mods)
  {
    hide Adds, Chain, Repaired3, Everything;
    var h, all := Repaired3(), Chain();
    forall i: nat, j: nat, z | i != j && i < |all| && j < |all| && Adds(h, all[i], z)
      ensures !Adds(h, all[j], z)
    {
      ChainAdds(z);
    }
  }

  lemma NamedLeads(h: Forest, all: seq<Augment>, js: set<nat>, a: Augment, m: string, p: Path)
    requires SpellsPlace(a, m, p) && m in h
    ensures Leads(h, all, js, a) <==> SuppliedAlong(h, all, js, m, [], p)
  {
    hide LeadsAlong, SuppliedAlong, Spells;
    PlainLeadsAlong(h, all, js, m, [], Parts(a), p);
  }

  /** Which augment leads somewhere once the augments `js` are applied. */
  lemma ChainLeads(js: set<nat>)
    ensures var h, all := Repaired3(), Chain();
            && |all| == 3 && Leads(h, all, js, all[0]) && (Leads(h, all, js, all[1]) <==> 0 in js)
            && (Leads(h, all, js, all[2]) <==> 0 in js && 1 in js)
  {
    hide Adds, SpellsPlace, Exists, Fixed, Shorthand, Chain, Leads, Supplied;
    ChainNames();
    ChainPlaces();
    ChainSupplies(js);
    var h, all := Repaired3(), Chain();
    NamedLeads(h, all, js, all[0], "m", X);
    NamedLeads(h, all, js, all[1], "m", Y);
    NamedLeads(h, all, js, all[2], "m", Z);
    AlongX(js);
    AlongMore(js, X, "y");
    AlongMore(js, Y, "z");
    assert X + ["y"] == Y && Y + ["z"] == Z;
  }

  lemma ChainSupplies(js: set<nat>)
    ensures var h, all := Repaired3(), Chain();
            && (Supplied(h, all, js, Place("m", Y)) <==> 0 in js)
            && (Supplied(h, all, js, Place("m", Z)) <==> 1 in js)
  {
    hide Adds, Exists, Repaired3, Chain;
    ChainPlaces();
    ChainAdds(Place("m", Y));
    ChainAdds(Place("m", Z));
    assert Y != Z && Y != W && Z != W;
  }

  lemma AlongX(js: set<nat>)
    ensures SuppliedAlong(Repaired3(), Chain(), js, "m", [], X)
  {
    hide Adds, Exists, Repaired3, Chain;
    forall k | 0 < k <= |X|
      ensures Supplied(Repaired3(), Chain(), js, Place("m", [] + X[..k]))
    {
      OnTheWay(k);
      assert [] + X[..k] == X[..k];
    }
  }

  lemma AlongMore(js: set<nat>, p: Path, k: string)
    ensures SuppliedAlong(Repaired3(), Chain(), js, "m", [], p + [k])
       <==> SuppliedAlong(Repaired3(), Chain(), js, "m", [], p)
            && Supplied(Repaired3(), Chain(), js, Place("m", p + [k]))
  {
    hide Supplied, Repaired3, Chain;
    var q := p + [k];
    assert forall n :: 0 < n <= |p| ==> q[..n] == p[..n];
    assert [] + q[..|q|] == q;
    if SuppliedAlong(Repaired3(), Chain(), js, "m", [], q) {
      forall n | 0 < n <= |p|
        ensures Supplied(Repaired3(), Chain(), js, Place("m", [] + p[..n]))
      {
        assert q[..n] == p[..n];
      }
    }
  }

  // ---------------------------------------------------------------- the turns

  lemma ChainTakes(js: set<nat>)
    ensures var h, all := Repaired3(), Chain();
            && Gather(h, all, js, [2]) == (if 0 in js && 1 in js then js + {2} else js)
            && Gather(h, all, js, [0, 1]) == js + {0, 1}
            && Gather(h, all, js, [1, 0]) == (if 0 in js then js + {1} else js + {0})
  {
    hide Leads, Repaired3, Chain;
    var h, all := Repaired3(), Chain();
    ChainLeads(js);
    ChainLeads(js + {0});
    ChainLeads(js + {1});
    assert [2][1..] == [] && [0, 1][1..] == [1] && [1, 0][1..] == [0] && [1][1..] == [] && [0][1..] == [];
    assert js + {0} + {1} == js + {0, 1};
    assert 0 in js ==> js + {1} + {0} == js + {1};
  }

  lemma LateSnoc(own: seq<nat>, front: seq<string>, last: string)
    requires own in [[0, 1], [1, 0]] && last in ["p", "q"] && forall m :: m in front ==> m in ["p", "q"]
    ensures var h, all, waiting := Repaired3(), Chain(), Lists(own);
            Late(h, all, {}, waiting, front + [last])
              == Gather(h, all, Late(h, all, {}, waiting, front), waiting[last])
  {
    hide Gather, Repaired3, Chain;
    assert (front + [last])[..|front|] == front;
  }

  /** Nothing is applied before the cases are in, and no two of the augments clash. */
  lemma ChainIsLate()
    ensures Complete(Importers(), Chain(), []) && FixedIn(Importers(), ["m", "p", "q"]) == Repaired3()
  {
    hide *;
    ChainNames();
    ChainPlaces();
    FixedImporters();
    var f, all := Importers(), Chain();
    NamedTarget(f, all[0], "m", X);
    NamedTarget(f, all[1], "m", Y);
    NamedTarget(f, all[2], "m", Z);
    NoTargets(f, all);
  }

  lemma NoTargets(f: Forest, all: seq<Augment>)
    requires forall i :: 0 <= i < |all| ==> Target(f, all[i]) == None
    ensures Complete(f, all, [])
  {
    hide Target;
    NoneTwice();
    AfterNothing(f, all);
  }

  lemma FixedImporters()
    ensures FixedIn(Importers(), ["m", "p", "q"]) == Repaired3()
  {
    assert Fixed(Box("p", map[])).Dir == map[] && Fixed(Box("q", map[])).Dir == map[];
  }

  /** What the last loop applies, turn by turn. */
  lemma StatementsInOrder()
    ensures var h, all, w := Repaired3(), Chain(), Lists([0, 1]);
            && Late(h, all, {}, w, ["q", "p"]) == {0, 1, 2} && Late(h, all, {}, w, ["p", "q"]) == {0, 1}
  {
    hide Gather, Late, Repaired3, Chain;
    var own := [0, 1];
    LateNone(Repaired3(), Chain(), {}, Lists(own));
    ChainTakes({});
    ChainTakes({0, 1});
    assert {} + {0, 1} == {0, 1} && {0, 1} + {2} == {0, 1, 2};
    assert [] + ["p"] == ["p"] && [] + ["q"] == ["q"] && ["q"] + ["p"] == ["q", "p"] && ["p"] + ["q"] == ["p", "q"];
    LateSnoc(own, [], "q");
    LateSnoc(own, ["q"], "p");
    LateSnoc(own, [], "p");
    LateSnoc(own, ["p"], "q");
  }

  lemma TurnsOfQFirst()
    ensures var h, all, w := Repaired3(), Chain(), Lists([1, 0]);
            Late(h, all, {}, w, ["q"]) == {0} && Late(h, all, {}, w, ["q", "q", "p", "p"]) == {0, 1, 2}
  {
    hide Gather, Late, Repaired3, Chain;
    var own := [1, 0];
    LateNone(Repaired3(), Chain(), {}, Lists(own));
    ChainTakes({});
    ChainTakes({0});
    ChainTakes({0, 1});
    ChainTakes({0, 1, 2});
    assert {} + {0} == {0} && {0} + {1} == {0, 1} && {0, 1} + {2} == {0, 1, 2} && {0, 1, 2} + {2} == {0, 1, 2};
    assert [] + ["q"] == ["q"] && ["q"] + ["q"] == ["q", "q"] && ["q", "q"] + ["p"] == ["q", "q", "p"];
    assert ["q", "q", "p"] + ["p"] == ["q", "q", "p", "p"];
    LateSnoc(own, [], "q");
    LateSnoc(own, ["q"], "q");
    LateSnoc(own, ["q", "q"], "p");
    LateSnoc(own, ["q", "q", "p"], "p");
  }

  lemma TurnsOfPFirst()
    ensures Late(Repaired3(), Chain(), {}, Lists([1, 0]), ["p", "p", "q", "q"]) == {0, 1}
  {
    hide Gather, Late, Repaired3, Chain;
    var own := [1, 0];
    LateNone(Repaired3(), Chain(), {}, Lists(own));
    ChainTakes({});
    ChainTakes({0});
    assert {} + {0} == {0} && {0} + {1} == {0, 1};
    assert [] + ["p"] == ["p"] && ["p"] + ["p"] == ["p", "p"] && ["p", "p"] + ["q"] == ["p", "p", "q"];
    assert ["p", "p", "q"] + ["q"] == ["p", "p", "q", "q"];
    LateSnoc(own, [], "p");
    LateSnoc(own, ["p"], "p");
    LateSnoc(own, ["p", "p"], "q");
    LateSnoc(own, ["p", "p", "q"], "q");
  }

  lemma ChainEnds(own: seq<nat>, order: seq<string>)
    requires own in [[0, 1], [1, 0]] && forall m :: m in order ==> m in ["p", "q"]
    ensures Members(Ending(Repaired3(), Chain(), Lists(own), order).run)
         == Late(Repaired3(), Chain(), {}, Lists(own), order)
  {
    hide Fair, Going, Ending, Late, Repaired3, Chain;
    ChainFair(own, order);
    EndingIsLate(Repaired3(), Chain(), Lists(own), order, order);
  }

  /** No augments clash; with q first all three are applied, with p first only those of q. */
  lemma OrderMattersLate()
    ensures Complete(Importers(), Chain(), []) && FixedIn(Importers(), ["m", "p", "q"]) == Repaired3()
    ensures forall mods :: (forall m :: m in mods ==> m in ["p", "q"]) ==>
              Fair(Repaired3(), Chain(), Lists([0, 1]), mods)
    ensures Members(Ending(Repaired3(), Chain(), Lists([0, 1]), ["q", "p"]).run) == {0, 1, 2}
    ensures Members(Ending(Repaired3(), Chain(), Lists([0, 1]), ["p", "q"]).run) == {0, 1}
  {
    hide Fair, Ending, Late, Repaired3, Chain, Complete;
    ChainIsLate();
    forall mods: seq<string> | forall m :: m in mods ==> m in ["p", "q"]
      ensures Fair(Repaired3(), Chain(), Lists([0, 1]), mods)
    {
      ChainFair([0, 1], mods);
    }
    StatementsInOrder();
    ChainEnds([0, 1], ["q", "p"]);
    ChainEnds([0, 1], ["p", "q"]);
  }

  /**
   Each module is listed twice, as those with a revision are, and q has its
   statements the other way round. With one turn each the order would not matter;
   with two it does.
   */
  lemma OrderMattersTwice()
    ensures Members(Ending(Repaired3(), Chain(), Lists([1, 0]), ["q", "q", "p", "p"]).run) == {0, 1, 2}
    ensures Members(Ending(Repaired3(), Chain(), Lists([1, 0]), ["p", "p", "q", "q"]).run) == {0, 1}
    ensures forall m :: m in ["p", "q"] ==> m in Lists([1, 0])
    ensures Settled(Repaired3(), Chain(), Lists([1, 0]), ["p", "q"])
  {
    hide Ending, Late, Repaired3, Chain, Settled;
    TurnsOfQFirst();
    TurnsOfPFirst();
    ChainEnds([1, 0], ["q", "q", "p", "p"]);
    ChainEnds([1, 0], ["p", "p", "q", "q"]);
    SettledOnce();
  }

  lemma SettledOnce()
    ensures forall m :: m in ["p", "q"] ==> m in Lists([1, 0])
    ensures Settled(Repaired3(), Chain(), Lists([1, 0]), ["p", "q"])
  {
    hide Gather, Others, Repaired3, Chain;
    var h, all, w, mods := Repaired3(), Chain(), Lists([1, 0]), ["p", "q"];
    assert multiset(mods) == multiset{"p", "q"};
    ChainTakes({});
    ChainTakes({0});
    var a, b := Others(h, all, w, mods, "p"), Others(h, all, w, mods, "q");
    OthersOfTwo();
    assert {0} * Members([2]) == {};
    assert Takes(h, all, {0}, w, "p", 1) == Takes(h, all, {}, w, "p", 1);
    assert Even(h, all, w, mods, "p", 1) && Even(h, all, w, mods, "q", 1);
  }

  lemma OthersOfTwo()
    ensures forall m :: m in ["p", "q"] ==> m in Lists([1, 0])
    ensures var h, all, w, mods := Repaired3(), Chain(), Lists([1, 0]), ["p", "q"];
            Others(h, all, w, mods, "p") == {0} && Others(h, all, w, mods, "q") == {}
  {
    hide Gather, Repaired3, Chain, Others;
    var h, all, w, mods := Repaired3(), Chain(), Lists([1, 0]), ["p", "q"];
    ChainTakes({});
    assert Turns(h, all, {}, w["q"], 1) == {0} && Turns(h, all, {}, w["p"], 1) == {};
    assert Takes(h, all, {}, w, "q", 1) == {0} && Takes(h, all, {}, w, "p", 1) == {};
    OtherOfTwo(h, all, w, mods, "p", "q");
    OtherOfTwo(h, all, w, mods, "q", "p");
  }

  lemma OtherOfTwo(h: Forest, all: seq<Augment>, w: map<string, seq<nat>>, mods: seq<string>, m: string, n: string)
    requires mods in [[m, n], [n, m]] && m != n && m in w && n in w
    ensures Others(h, all, w, mods, m) == Takes(h, all, {}, w, n, 1)
  {
    hide Takes;
    assert multiset(mods) == multiset{m, n};
    assert forall j :: j in mods && j != m <==> j == n;
    assert multiset(mods)[n] == 1;
    forall i: nat
      ensures i in Others(h, all, w, mods, m) <==> i in Takes(h, all, {}, w, n, 1)
    {
      if i in Takes(h, all, {}, w, n, 1) {
        assert n in mods && n != m && i in Takes(h, all, {}, w, n, multiset(mods)[n]);
      }
      if i in Others(h, all, w, mods, m) {
        var j :| j in mods && j != m && i in Takes(h, all, {}, w, j, multiset(mods)[j]);
      }
    }
  }

  /** An augment that the first turn of its module reports as not found and the second one applies. */
  lemma ReportedAndApplied()
    ensures var end := Ending(Repaired3(), Chain(), Lists([1, 0]), ["q", "q", "p", "p"]);
            |Chain()| == 3 && 1 in end.run && NotFound(Chain()[1].name) in Said(end.log, "q")
  {
    hide *;
    var h, all, w, order := Repaired3(), Chain(), Lists([1, 0]), ["q", "q", "p", "p"];
    ChainNames();
    TurnsOfQFirst();
    ChainEnds([1, 0], order);
    ChainEnds([1, 0], ["q"]);
    RunHas(Ending(h, all, w, order).run, 1);
    RunHas(Ending(h, all, w, ["q"]).run, 1);
    ChainFair([1, 0], order);
    ChainFound();
    NamesDiffer();
    Arrange();
    ListOfQ();
    assert 1 in {0, 1, 2} && 1 !in {0};
    FirstTurnReports(h, all, w, order, [], "q", ["q", "p", "p"], 1);
    assert 1 !in Ending(h, all, w, [] + ["q"]).run;
    assert NotFound(all[1].name) in Said(Ending(h, all, w, [] + ["q"] + ["q", "p", "p"]).log, "q");
  }

  lemma RunHas(run: seq<nat>, i: nat)
    ensures i in Members(run) <==> i in run
  {
  }

  lemma Arrange()
    ensures [] + ["q"] + ["q", "p", "p"] == ["q", "q", "p", "p"] && [] + ["q"] == ["q"]
    ensures Arranged(["q", "q", "p", "p"], ["q", "q", "p", "p"])
  {
  }

  lemma ListOfQ()
    ensures var w := Lists([1, 0]); "q" in w && w["q"] == [1, 0]
  {
  }

  lemma NamesDiffer()
    ensures OwnNames(Chain(), [1, 0])
  {
    assert |"/m:c/m:x/m:x"| != |"/m:c/m:x/m:x/m:y"|;
  }

  lemma ChainFound()
    ensures forall a :: a in Chain() ==> !Lost(Repaired3().Keys, a)
  {
    hide SpellsPlace, PartsOf, PrefixOf, Fixed, Shorthand, Gives;
    ThreeParts();
    FourParts();
    FiveParts();
    Prefixed1('c');
    assert "m:c" == ['m', ':', 'c'];
  }
}
