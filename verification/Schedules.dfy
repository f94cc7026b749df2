/**
 The run of augments that an order of the modules gives (the augment loop of
 pkg/yang/modules.go, on values), and what that order decides.
 */
module Schedules {
  import Text
  import opened Wrappers
  import opened Trees
  import opened Paths
  import opened Augments
  import opened Confluence
  import opened Notes

  /** What trying the augments of a list once in turn leads to: the schema, those applied, and those left. */
  datatype Swept = Swept(schema: Forest, applied: seq<nat>, left: seq<nat>)

  ghost function Sweep(g: Forest, all: seq<Augment>, list: seq<nat>): Swept
    decreases |list|
  {
    if list == [] then Swept(g, [], [])
    else
      var i := list[0];
      var x := if i < |all| then Target(g, all[i]) else None;
      if x.Some? then
        var r := Sweep(Applied(g, all[i], x.value), all, list[1..]);
        r.(applied := [i] + r.applied)
      else
        var r := Sweep(g, all, list[1..]);
        r.(left := [i] + r.left)
  }

  /**
   The state of the loop: the schema, the augments applied so far, those waiting,
   the modules left, and the errors noted.
   */
  datatype State = State(
    schema: Forest,
    run: seq<nat>,
    waiting: map<string, seq<nat>>,
    mods: seq<string>,
    log: Log)

  /** One module of a pass. */
  ghost function Turn(st: State, all: seq<Augment>, m: string): State
    requires m in st.waiting
  {
    var s := Sweep(st.schema, all, st.waiting[m]);
    State(s.schema, st.run + s.applied, st.waiting[m := s.left], st.mods,
          Note(st.log, m, Tried(all, st.schema.Keys, st.waiting[m])))
  }

  /** One module of the last loop, which notes what it leaves. */
  ghost function LastTurn(st: State, all: seq<Augment>, m: string): State
    requires m in st.waiting
  {
    var next := Turn(st, all, m);
    next.(log := Note(next.log, m, Missed(all, next.waiting[m])))
  }

  /** The last loop: each module of `mods` has one more turn. */
  ghost function Retry(st: State, all: seq<Augment>, mods: seq<string>): State
    decreases |mods|
  {
    if mods == [] || mods[0] !in st.waiting then st else Retry(LastTurn(st, all, mods[0]), all, mods[1..])
  }

  /** The list without its `i`th module, whose place the last one takes. */
  function Without(mods: seq<string>, i: nat): seq<string>
    requires i < |mods|
  {
    mods[i := mods[|mods| - 1]][..|mods| - 1]
  }

  /** The pass from the `i`th module on. */
  ghost function Pass(st: State, all: seq<Augment>, i: nat): State
    decreases |st.mods| - i
  {
    if i >= |st.mods| || st.mods[i] !in st.waiting then st
    else
      var m := st.mods[i];
      var next := Turn(st, all, m);
      if next.waiting[m] == [] then Pass(next.(mods := Without(next.mods, i)), all, i)
      else Pass(next, all, i + 1)
  }

  /** Passes until none is left to try or one applies nothing. */
  ghost function Loop(st: State, all: seq<Augment>): State
    decreases if |st.run| <= |all| then |all| - |st.run| else 0
  {
    if st.mods == [] then st
    else
      var next := Pass(st, all, 0);
      if |next.run| <= |st.run| || |st.run| >= |all| then next else Loop(next, all)
  }

  /** The run that the order `order` of the modules gives. */
  ghost function Scheduled(f: Forest, all: seq<Augment>, waiting: map<string, seq<nat>>, order: seq<string>): seq<nat> {
    Loop(State(f, [], waiting, order, map[]), all).run
  }

  lemma SweepStep(g: Forest, all: seq<Augment>, list: seq<nat>)
    requires list != []
    ensures var i, s := list[0], Sweep(g, all, list);
            if i < |all| && Target(g, all[i]).Some? then
              s == var r := Sweep(Applied(g, all[i], Target(g, all[i]).value), all, list[1..]);
                   r.(applied := [i] + r.applied)
            else s == var r := Sweep(g, all, list[1..]); r.(left := [i] + r.left)
  {
    hide Target, Applied;
  }

  /** A sweep that applies nothing leaves everything, and finds no target. */
  lemma {:induction false} SweptInVain(g: Forest, all: seq<Augment>, list: seq<nat>)
    requires Sweep(g, all, list).applied == []
    ensures Sweep(g, all, list) == Swept(g, [], list)
    ensures forall i :: i in list && i < |all| ==> Target(g, all[i]) == None
    decreases |list|
  {
    hide Target, Applied;
    if list != [] {
      SweptInVain(g, all, list[1..]);
      assert list == [list[0]] + list[1..];
    }
  }

  lemma TurnShape(st: State, all: seq<Augment>, m: string)
    requires m in st.waiting
    ensures var next := Turn(st, all, m);
            && next.mods == st.mods && next.waiting.Keys == st.waiting.Keys
            && forall n :: n in st.waiting && n != m ==> next.waiting[n] == st.waiting[n]
  {
    hide Sweep;
  }

  /** A turn that applies nothing. */
  lemma TurnInVain(st: State, all: seq<Augment>, m: string)
    requires m in st.waiting && |Turn(st, all, m).run| == |st.run|
    ensures var next := Turn(st, all, m); next.schema == st.schema && next.waiting == st.waiting
    ensures forall i :: i in st.waiting[m] && i < |all| ==> Target(st.schema, all[i]) == None
  {
    hide Sweep, Target;
    SweptInVain(st.schema, all, st.waiting[m]);
    assert st.waiting[m := st.waiting[m]] == st.waiting;
  }

  // ---------------------------------------------------------------- such runs are runs

  lemma {:induction false} SweepRuns(f: Forest, all: seq<Augment>, run: seq<nat>, g: Forest, list: seq<nat>)
    requires After(f, all, run) == Some(g)
    ensures var s := Sweep(g, all, list); After(f, all, run + s.applied) == Some(s.schema)
    decreases |list|
  {
    hide Applied, Target;
    if list == [] {
      assert run + [] == run;
    } else {
      var i := list[0];
      if i < |all| && Target(g, all[i]).Some? {
        AfterOneMore(f, all, run, g, i);
        var h := Applied(g, all[i], Target(g, all[i]).value);
        SweepRuns(f, all, run + [i], h, list[1..]);
        assert run + [i] + Sweep(h, all, list[1..]).applied == run + Sweep(g, all, list).applied;
      } else {
        SweepRuns(f, all, run, g, list[1..]);
      }
    }
  }

  /** The schema of a state is that of its run, and the run goes on from `start`. */
  ghost predicate Follows(f: Forest, all: seq<Augment>, start: seq<nat>, st: State) {
    After(f, all, st.run) == Some(st.schema) && start <= st.run
  }

  lemma TurnFollows(f: Forest, all: seq<Augment>, start: seq<nat>, st: State, m: string)
    requires Follows(f, all, start, st) && m in st.waiting
    ensures var next := Turn(st, all, m);
            Follows(f, all, start, next) && next.mods == st.mods && m in next.waiting
  {
    hide After, Sweep;
    SweepRuns(f, all, st.run, st.schema, st.waiting[m]);
  }

  lemma FollowsMods(f: Forest, all: seq<Augment>, start: seq<nat>, st: State, i: nat)
    requires Follows(f, all, start, st) && i < |st.mods|
    ensures Follows(f, all, start, st.(mods := Without(st.mods, i))) && |Without(st.mods, i)| < |st.mods|
  {
    hide After;
  }

  lemma {:induction false} PassFollows(f: Forest, all: seq<Augment>, start: seq<nat>, st: State, i: nat)
    requires Follows(f, all, start, st)
    ensures Follows(f, all, start, Pass(st, all, i))
    decreases |st.mods| - i
  {
    hide Follows, Turn, Without;
    if i < |st.mods| && st.mods[i] in st.waiting {
      var m := st.mods[i];
      TurnFollows(f, all, start, st, m);
      var next := Turn(st, all, m);
      FollowsMods(f, all, start, next, i);
      if next.waiting[m] == [] {
        PassFollows(f, all, start, next.(mods := Without(next.mods, i)), i);
      } else {
        PassFollows(f, all, start, next, i + 1);
      }
    }
  }

  lemma {:induction false} LoopFollows(f: Forest, all: seq<Augment>, start: seq<nat>, st: State)
    requires Follows(f, all, start, st)
    ensures Follows(f, all, start, Loop(st, all))
    decreases if |st.run| <= |all| then |all| - |st.run| else 0
  {
    hide Pass, Follows;
    if st.mods != [] {
      var next := Pass(st, all, 0);
      PassFollows(f, all, start, st, 0);
      if !(|next.run| <= |st.run| || |st.run| >= |all|) { LoopFollows(f, all, start, next); }
    }
  }

  // ---------------------------------------------------------------- the first module

  /** The first augment of the first module comes first if it has a target. */
  lemma FirstOfOrder(f: Forest, all: seq<Augment>, waiting: map<string, seq<nat>>, order: seq<string>, i: nat)
    requires order != [] && order[0] in waiting && waiting[order[0]] != [] && waiting[order[0]][0] == i
    requires i < |all| && Target(f, all[i]).Some?
    ensures var run := Scheduled(f, all, waiting, order); [i] <= run && After(f, all, run).Some?
  {
    hide Target, Applied, Pass, Follows, After;
    var st, m := State(f, [], waiting, order, map[]), order[0];
    FollowsMeans(f, all, [], st);
    assert After(f, all, []) == Some(f) by { AfterNothing(f, all); }
    SweepRuns(f, all, [], f, waiting[m]);
    var next := Turn(st, all, m);
    assert next.run == Sweep(f, all, waiting[m]).applied;
    FollowsMeans(f, all, [i], next);
    var on, k := if next.waiting[m] == [] then next.(mods := Without(next.mods, 0)) else next,
                 if next.waiting[m] == [] then 0 else 1;
    FollowsMeans(f, all, [i], on);
    PassFollows(f, all, [i], on, k);
    FirstPass(st, all, m);
    var p := Pass(st, all, 0);
    LoopFollows(f, all, [i], p);
    FollowsMeans(f, all, [i], p);
    FollowsMeans(f, all, [i], Loop(p, all));
  }

  lemma AfterNothing(f: Forest, all: seq<Augment>)
    ensures After(f, all, []) == Some(f)
  {
  }

  lemma FollowsMeans(f: Forest, all: seq<Augment>, start: seq<nat>, st: State)
    ensures Follows(f, all, start, st) <==> After(f, all, st.run) == Some(st.schema) && start <= st.run
  {
  }

  lemma FirstPass(st: State, all: seq<Augment>, m: string)
    requires st.mods != [] && st.mods[0] == m && m in st.waiting
    ensures var next := Turn(st, all, m);
            Pass(st, all, 0) == if next.waiting[m] == [] then Pass(next.(mods := Without(next.mods, 0)), all, 0)
                                else Pass(next, all, 1)
  {
  }

  /**
   Two modules whose first augments clash: the one that comes first in the
   order decides what the schema has.
   */
  lemma OrderDecides(f: Forest, all: seq<Augment>, waiting: map<string, seq<nat>>,
                     order: seq<string>, other: seq<string>, i: nat, j: nat, y: Place)
    requires order != [] && order[0] in waiting && waiting[order[0]] != [] && waiting[order[0]][0] == i
    requires other != [] && other[0] in waiting && waiting[other[0]] != [] && waiting[other[0]][0] == j
    requires i < |all| && j < |all| && Clash(f, all[i], all[j], y)
    requires Target(f, all[i]).Some? && Target(f, all[j]).Some?
    ensures var run, run' := Scheduled(f, all, waiting, order), Scheduled(f, all, waiting, other);
            && After(f, all, run).Some? && After(f, all, run').Some?
            && DifferAt(After(f, all, run).value, After(f, all, run').value, y)
  {
    hide Target, Scheduled, After, Clash, DifferAt;
    FirstOfOrder(f, all, waiting, order, i);
    FirstOfOrder(f, all, waiting, other, j);
    FirstDecides(f, all, Scheduled(f, all, waiting, order), Scheduled(f, all, waiting, other), i, j, y);
  }

  // ---------------------------------------------------------------- an order that matters

  function Container(name: string, dir: map<string, Tree>): Tree {
    Fresh(name, Directory, dir)
  }

  /** A module `m` with a container `a`, and three modules that import it. */
  function FourModules(): Forest {
    map["m" := Container("m", map["a" := Container("a", map[])]),
        "p" := Container("p", map[]), "q" := Container("q", map[]), "r" := Container("r", map[])]
  }

  /**
   Modules p and q give the container a child b, only that of p with a child c.
   Module r augments that child.
   */
  function ThreeAugments(): seq<Augment> {
    var imports := map["m" := "m"];
    [Augment("p", "/m:a", imports, "urn:p",
             Container("", map["b" := Container("b", map["c" := Container("c", map[])])])),
     Augment("q", "/m:a", imports, "urn:q", Container("", map["b" := Container("b", map[])])),
     Augment("r", "/m:a/m:b/m:c", imports, "urn:r", Container("", map["d" := Container("d", map[])]))]
  }

  function Lists(): map<string, seq<nat>> {
    map["m" := [], "p" := [0], "q" := [1], "r" := [2]]
  }

  /** One order of the modules applies all three augments, another leaves out the third. */
  lemma OrderMatters()
    ensures Scheduled(FourModules(), ThreeAugments(), Lists(), ["p", "q", "r", "m"]) == [0, 2, 1]
    ensures Scheduled(FourModules(), ThreeAugments(), Lists(), ["q", "p", "r", "m"]) == [1, 0]
  {
    RicherFirst();
    PoorerFirst();
  }

  lemma RicherFirst()
    ensures Scheduled(FourModules(), ThreeAugments(), Lists(), ["p", "q", "r", "m"]) == [0, 2, 1]
  {
    hide *;
    var f, all, a := FourModules(), ThreeAugments(), Place("m", ["a"]);
    RicherTargets();
    var g := Applied(f, all[0], a);
    var h := Applied(g, all[2], Target(g, all[2]).value);
    ListsAre();
    SwapsAre();
    NothingLost(f, g, h);
    // p, then m and r from the end of the list, then q
    var l0 := Lists();
    var l1 := l0["p" := []];
    var l2 := l1["r" := []];
    var s0 := State(f, [], l0, ["p", "q", "r", "m"], map[]);
    SweepOne(f, all, 0);
    Finishes(s0, all, 0, g, [0], [0]);
    var s1 := State(g, [0], l1, ["m", "q", "r"], map[]);
    SweepNone(g, all);
    Finishes(s1, all, 0, g, [], [0]);
    assert l1["m" := []] == l1;
    var s2 := State(g, [0], l1, ["r", "q"], map[]);
    SweepOne(g, all, 2);
    Finishes(s2, all, 0, h, [2], [0, 2]);
    var s3 := State(h, [0, 2], l2, ["q"], map[]);
    SweepOne(h, all, 1);
    Finishes(s3, all, 0, Applied(h, all[1], a), [1], [0, 2, 1]);
    var s4 := State(Applied(h, all[1], a), [0, 2, 1], l2["q" := []], [], map[]);
    PassEnd(s4, all, 0);
    LoopOnce(s0, all, s4);
    LoopEnd(s4, all);
    ScheduledIs(f, all, l0, ["p", "q", "r", "m"]);
  }

  lemma PoorerFirst()
    ensures Scheduled(FourModules(), ThreeAugments(), Lists(), ["q", "p", "r", "m"]) == [1, 0]
  {
    hide *;
    var f, all, a := FourModules(), ThreeAugments(), Place("m", ["a"]);
    PoorerTargets();
    var g := Applied(f, all[1], a);
    var h := Applied(g, all[0], a);
    ListsAre();
    SwapsAre();
    NothingLost(f, g, h);
    // q, then m and r from the end of the list, then p
    var l0 := Lists();
    var l1 := l0["q" := []];
    var l2 := l1["p" := []];
    var s0 := State(f, [], l0, ["q", "p", "r", "m"], map[]);
    SweepOne(f, all, 1);
    Finishes(s0, all, 0, g, [1], [1]);
    var s1 := State(g, [1], l1, ["m", "p", "r"], map[]);
    SweepNone(g, all);
    Finishes(s1, all, 0, g, [], [1]);
    assert l1["m" := []] == l1;
    var s2 := State(g, [1], l1, ["r", "p"], map[]);
    SweepOne(g, all, 2);
    Waits(s2, all, 0);
    SweepOne(g, all, 0);
    Finishes(s2, all, 1, h, [0], [1, 0]);
    var s3 := State(h, [1, 0], l2, ["r"], map[]);
    PassEnd(s3, all, 1);
    LoopOnce(s0, all, s3);
    // r once more
    SweepOne(h, all, 2);
    Waits(s3, all, 0);
    LoopStuck(s3, all);
    ScheduledIs(f, all, l0, ["q", "p", "r", "m"]);
  }

  lemma ScheduledIs(f: Forest, all: seq<Augment>, waiting: map<string, seq<nat>>, order: seq<string>)
    ensures Scheduled(f, all, waiting, order) == Loop(State(f, [], waiting, order, map[]), all).run
  {
  }

  /** A module that gets all its augments applied leaves the list. */
  lemma Finishes(st: State, all: seq<Augment>, i: nat, g: Forest, applied: seq<nat>, run: seq<nat>)
    requires i < |st.mods| && st.mods[i] in st.waiting && run == st.run + applied
    requires Sweep(st.schema, all, st.waiting[st.mods[i]]) == Swept(g, applied, [])
    requires Tried(all, st.schema.Keys, st.waiting[st.mods[i]]) == multiset{}
    ensures Pass(st, all, i) == Pass(State(g, run, st.waiting[st.mods[i] := []], Without(st.mods, i), st.log), all, i)
  {
    hide Sweep, Without;
    PassStep(st, all, i);
  }

  /** A module none of whose augments is applied stays. */
  lemma Waits(st: State, all: seq<Augment>, i: nat)
    requires i < |st.mods| && st.mods[i] in st.waiting && st.waiting[st.mods[i]] != []
    requires Sweep(st.schema, all, st.waiting[st.mods[i]]) == Swept(st.schema, [], st.waiting[st.mods[i]])
    requires Tried(all, st.schema.Keys, st.waiting[st.mods[i]]) == multiset{}
    ensures Pass(st, all, i) == Pass(st, all, i + 1)
  {
    hide Sweep, Pass;
    PassStep(st, all, i);
    var m := st.mods[i];
    assert st.run + [] == st.run && st.waiting[m := st.waiting[m]] == st.waiting;
  }

  /** Every prefix of the three augments leads to a module. */
  lemma NothingLost(f: Forest, g: Forest, h: Forest)
    requires "m" in f && "m" in g && "m" in h
    ensures forall list :: Tried(ThreeAugments(), f.Keys, list) == multiset{}
    ensures forall list :: Tried(ThreeAugments(), g.Keys, list) == multiset{}
    ensures forall list :: Tried(ThreeAugments(), h.Keys, list) == multiset{}
  {
    hide Tried, Lost, ThreeAugments;
    forall mods, list | "m" in mods
      ensures Tried(ThreeAugments(), mods, list) == multiset{}
    {
      NotLost(mods);
      NoneLost(ThreeAugments(), mods, list);
    }
  }

  lemma NotLost(mods: set<string>)
    requires "m" in mods
    ensures forall i :: 0 <= i < |ThreeAugments()| ==> !Lost(mods, ThreeAugments()[i])
  {
    hide PartsOf, PrefixOf;
    Names();
    assert "m:a" == ['m', ':', 'a'];
  }

  lemma SwapsAre()
    ensures Without(["p", "q", "r", "m"], 0) == ["m", "q", "r"] && Without(["q", "p", "r", "m"], 0) == ["m", "p", "r"]
    ensures Without(["m", "q", "r"], 0) == ["r", "q"] && Without(["m", "p", "r"], 0) == ["r", "p"]
    ensures Without(["r", "q"], 0) == ["q"] && Without(["q"], 0) == [] && Without(["r", "p"], 1) == ["r"]
  {
  }

  /** With the richer augment first, all three get a target. */
  lemma RicherTargets()
    ensures var f, all, a := FourModules(), ThreeAugments(), Place("m", ["a"]);
            && |all| == 3 && Target(f, all[0]) == Some(a)
            && var g := Applied(f, all[0], a);
               && Target(g, all[2]).Some?
               && var h := Applied(g, all[2], Target(g, all[2]).value);
                  && Target(h, all[1]) == Some(a)
                  && "m" in f && "m" in g && "m" in h
  {
    hide Target, Applied, Adds, Exists, Goal, ThreeAugments, FourModules, Grown, SameFields;
    var f, all := FourModules(), ThreeAugments();
    var a, c := Place("m", ["a"]), Place("m", ["a", "b", "c"]);
    Goals();
    Additions();
    var g := Applied(f, all[0], a);
    AppliedNodes(f, all[0], a, c);
    ThirdTarget(g);
    AppliedGrows(f, all[0], a);
    var h := Applied(g, all[2], Target(g, all[2]).value);
    AppliedGrows(g, all[2], Target(g, all[2]).value);
    GrownOn(f, g, h);
    TargetStays(f, h, all[1]);
    GrownKeys(f, g, h);
  }

  /** With the poorer augment first, the third never gets a target. */
  lemma PoorerTargets()
    ensures var f, all, a := FourModules(), ThreeAugments(), Place("m", ["a"]);
            && |all| == 3 && Target(f, all[1]) == Some(a)
            && var g := Applied(f, all[1], a);
               && Target(g, all[0]) == Some(a) && Target(g, all[2]) == None
               && Target(Applied(g, all[0], a), all[2]) == None
               && "m" in f && "m" in g && "m" in Applied(g, all[0], a)
  {
    hide Target, Applied, Adds, Exists, Goal, ThreeAugments, FourModules, Grown, Top, SameFields;
    var f, all := FourModules(), ThreeAugments();
    var a, b, c := Place("m", ["a"]), Place("m", ["a", "b"]), Place("m", ["a", "b", "c"]);
    Goals();
    Additions();
    var g := Applied(f, all[1], a);
    AppliedNodes(f, all[1], a, b);
    AppliedNodes(f, all[1], a, c);
    NoThirdTarget(g);
    AppliedGrows(f, all[1], a);
    TargetStays(f, g, all[0]);
    AppliedNodes(g, all[0], a, c);
    Refuses(g, all[0], c);
    NoThirdTarget(Applied(g, all[0], a));
    AppliedGrows(g, all[0], a);
    GrownKeys(f, g, Applied(g, all[0], a));
  }

  lemma GrownKeys(f: Forest, g: Forest, h: Forest)
    requires f == FourModules() && Grown(f, g) && Grown(g, h)
    ensures "m" in f && "m" in g && "m" in h
  {
    hide Exists;
  }

  lemma ListsAre()
    ensures var l := Lists();
            l.Keys == {"m", "p", "q", "r"} && l["m"] == [] && l["p"] == [0] && l["q"] == [1] && l["r"] == [2]
  {
  }

  // One step of each function.

  lemma SweepNone(g: Forest, all: seq<Augment>)
    ensures Sweep(g, all, []) == Swept(g, [], [])
  {
  }

  lemma SweepOne(g: Forest, all: seq<Augment>, i: nat)
    requires i < |all|
    ensures Sweep(g, all, [i]) == var x := Target(g, all[i]);
                                  if x.Some? then Swept(Applied(g, all[i], x.value), [i], [])
                                  else Swept(g, [], [i])
  {
    hide Target, Applied;
    assert [i][1..] == [];
  }

  lemma PassStep(st: State, all: seq<Augment>, i: nat)
    requires i < |st.mods| && st.mods[i] in st.waiting
    ensures var next := Turn(st, all, st.mods[i]);
            Pass(st, all, i) == if next.waiting[st.mods[i]] == []
                                then Pass(next.(mods := Without(next.mods, i)), all, i)
                                else Pass(next, all, i + 1)
  {
  }

  lemma PassEnd(st: State, all: seq<Augment>, i: nat)
    requires i >= |st.mods|
    ensures Pass(st, all, i) == st
  {
  }

  lemma LoopOnce(st: State, all: seq<Augment>, next: State)
    requires st.mods != [] && next == Pass(st, all, 0) && |st.run| < |next.run| && |st.run| < |all|
    ensures Loop(st, all) == Loop(next, all)
  {
  }

  lemma LoopEnd(st: State, all: seq<Augment>)
    requires st.mods == []
    ensures Loop(st, all) == st
  {
  }

  lemma LoopStuck(st: State, all: seq<Augment>)
    requires Pass(st, all, 0) == st
    ensures Loop(st, all) == st
  {
  }

  // The targets of the three augments.

  lemma AppliedGrows(f: Forest, a: Augment, x: Place)
    requires Target(f, a) == Some(x)
    ensures Grown(f, Applied(f, a, x))
  {
    hide Target, Exists, Applied, Adds;
    forall y { AppliedNodes(f, a, x, y); }
    AppliedNodes(f, a, x, x);
  }

  lemma GrownOn(f: Forest, g: Forest, h: Forest)
    requires Grown(f, g) && Grown(g, h)
    ensures Grown(f, h)
  {
    hide Exists;
  }

  lemma Refuses(g: Forest, a: Augment, y: Place)
    requires Brings(a, y) && Exists(g, Top(a, y))
    ensures !Adds(g, a, y)
  {
  }

  lemma Names()
    ensures PartsOf("/m:a") == ["m:a"] && PartsOf("/m:a/m:b/m:c") == ["m:a", "m:b", "m:c"]
    ensures forall c :: c in {'a', 'b', 'c'} ==> PrefixOf(['m', ':', c]) == "m" && LocalName(['m', ':', c]) == [c]
  {
    var two, four := ["", "m:a"], ["", "m:a", "m:b", "m:c"];
    Text.SplitJoin(two, '/');
    Text.SplitJoin(four, '/');
    JoinFour(four);
    assert two[1..] == ["m:a"] && "" + "/" + "m:a" == "/m:a";
    assert Text.Join(two, "/") == "/m:a";
    assert four[1..] == ["m:a", "m:b", "m:c"];
    forall c | c in {'a', 'b', 'c'}
      ensures PrefixOf(['m', ':', c]) == "m" && LocalName(['m', ':', c]) == [c]
    {
      Prefixed(c);
    }
  }

  lemma Prefixed(c: char)
    ensures PrefixOf(['m', ':', c]) == "m" && LocalName(['m', ':', c]) == [c]
  {
    hide Text.IndexOf;
    var s := ['m', ':', c];
    assert s[1..][0] == ':' && s[0..][0] == 'm';
    assert Text.At(s, 1, ":") && !Text.At(s, 0, ":");
    assert s[..1] == "m" && s[2..] == [c];
  }

  lemma JoinFour(parts: seq<string>)
    requires parts == ["", "m:a", "m:b", "m:c"]
    ensures Text.Join(parts, "/") == "/m:a/m:b/m:c"
  {
    var b, c := ["m:a", "m:b", "m:c"], ["m:b", "m:c"];
    assert parts[1..] == b && b[1..] == c && c[1..] == ["m:c"];
    assert Text.Join(c, "/") == "m:b/m:c";
    assert Text.Join(b, "/") == "m:a/m:b/m:c";
    assert "" + "/" + "m:a/m:b/m:c" == "/m:a/m:b/m:c";
  }

  lemma Goals()
    ensures var f, all := FourModules(), ThreeAugments();
            && |all| == 3
            && Target(f, all[0]) == Some(Place("m", ["a"])) && Target(f, all[1]) == Some(Place("m", ["a"]))
            && Goal(all[0]) == Goal(all[1]) == Some(Place("m", ["a"]))
            && Goal(all[2]) == Some(Place("m", ["a", "b", "c"]))
  {
    hide PartsOf, PrefixOf, LocalName;
    Names();
    var f, all := FourModules(), ThreeAugments();
    assert "m:a" == ['m', ':', 'a'] && "m:b" == ['m', ':', 'b'] && "m:c" == ['m', ':', 'c'];
    assert [] + ["a"] == ["a"] && ["m:a"][1..] == [] && ["a"][1..] == [];
    assert ["a"] + ["b"] == ["a", "b"] && ["a", "b"] + ["c"] == ["a", "b", "c"];
    assert ["m:a", "m:b", "m:c"][1..] == ["m:b", "m:c"] && ["m:b", "m:c"][1..] == ["m:c"] && ["m:c"][1..] == [];
    assert Aim(["a", "b"], ["m:c"]) == Some(["a", "b", "c"]);
    assert Aim(["a"], ["m:b", "m:c"]) == Some(["a", "b", "c"]);
  }

  lemma Additions()
    ensures var f, all := FourModules(), ThreeAugments();
            var b, c := Place("m", ["a", "b"]), Place("m", ["a", "b", "c"]);
            && Brings(all[0], c) && Top(all[0], c) == b && Adds(f, all[0], c)
            && Adds(f, all[1], b) && !Adds(f, all[1], c) && !Exists(f, c)
  {
    hide Goal;
    Goals();
    assert ["a", "b", "c"][1..] == ["b", "c"] && ["b", "c"][1..] == ["c"] && ["c"][1..] == [];
    assert ["a", "b"][1..] == ["b"] && ["b"][1..] == [];
    assert ["a"] + ["b"] == ["a", "b"];
    var all := ThreeAugments();
    assert At(all[0].body.Dir["b"], ["c"]).Some?;
    assert At(all[1].body.Dir["b"], ["c"]).None?;
  }

  /** The third augment has a target exactly when the node it is for is there. */
  lemma ThirdTarget(g: Forest)
    requires Exists(g, Place("m", ["a", "b", "c"]))
    ensures Target(g, ThreeAugments()[2]).Some?
  {
    hide PartsOf, PrefixOf, LocalName;
    Names();
    var t := g["m"];
    assert "m:a" == ['m', ':', 'a'] && "m:b" == ['m', ':', 'b'] && "m:c" == ['m', ':', 'c'];
    assert ["a"] + ["b", "c"] == ["a", "b", "c"] && ["a", "b"] + ["c"] == ["a", "b", "c"];
    assert ["a"] + ["b"] == ["a", "b"] && [] + ["a"] == ["a"];
    HasPrefix(t, ["a"], ["b", "c"]);
    HasPrefix(t, ["a", "b"], ["c"]);
    assert ["m:a", "m:b", "m:c"][1..] == ["m:b", "m:c"] && ["m:b", "m:c"][1..] == ["m:c"] && ["m:c"][1..] == [];
    assert Resolve(t, ["a", "b"], ["m:c"]).Some?;
    assert Resolve(t, ["a"], ["m:b", "m:c"]).Some?;
  }

  lemma NoThirdTarget(g: Forest)
    requires !Exists(g, Place("m", ["a", "b", "c"]))
    ensures Target(g, ThreeAugments()[2]) == None
  {
    hide Target, Goal;
    Goals();
    TargetIsGoal(g, ThreeAugments()[2]);
  }
}
