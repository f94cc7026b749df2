/**
 Which augments of a set of modules get applied, and what the schema is then
 (the augment loop of pkg/yang/modules.go, on values).
 */
module Augments {
  import Text
  import opened Trees
  import opened Wrappers
  import opened Paths

  /** The schema trees of the modules, by module name. */
  type Forest = map<string, Tree>

  datatype Place = Place(module_: string, path: Path)

  predicate Exists(f: Forest, x: Place) {
    x.module_ in f && Has(f[x.module_], x.path)
  }

  function Node(f: Forest, x: Place): Tree
    requires Exists(f, x)
  {
    At(f[x.module_], x.path).value
  }

  /** An augment of module `home` for the node called `name`; `imports` resolves the prefixes of its module. */
  datatype Augment = Augment(home: string, name: string, imports: map<string, string>, namespace: string, body: Tree)

  predicate Absolute(a: Augment) {
    a.name != "" && a.name[0] == '/'
  }

  /** The parts of an absolute name, without the empty one before the first slash. */
  function PartsOf(name: string): seq<string> {
    Text.Split(name, '/')[1..]
  }

  /** The module an absolute name starts at. */
  function StartOf(home: string, imports: map<string, string>, parts: seq<string>): Option<string> {
    var prefix := if parts == [] then "" else PrefixOf(parts[0]);
    if prefix == "" then Some(home)
    else if prefix in imports then Some(imports[prefix])
    else None
  }

  function Parts(a: Augment): seq<string> {
    PartsOf(a.name)
  }

  function Start(a: Augment): Option<string> {
    StartOf(a.home, a.imports, Parts(a))
  }

  /** The node the augment is for, if there is one. */
  function Target(f: Forest, a: Augment): (r: Option<Place>)
    ensures r.Some? ==> Exists(f, r.value)
  {
    var m := Start(a);
    if m == None || m.value !in f then None
    else
      var p := Resolve(f[m.value], [], Parts(a));
      if p == None then None else Some(Place(m.value, p.value))
  }

  /** The place it is for, whether or not there is a node yet. */
  function Goal(a: Augment): Option<Place> {
    var m, p := Start(a), Aim([], Parts(a));
    if m == None || p == None then None else Some(Place(m.value, p.value))
  }

  lemma TargetIsGoal(f: Forest, a: Augment)
    ensures Target(f, a).Some? ==> Target(f, a) == Goal(a)
  {
    var m := Start(a);
    if m.Some? && m.value in f { ResolvedIsAim(f[m.value], [], Parts(a)); }
  }

  ghost predicate Grown(f: Forest, g: Forest) {
    f.Keys <= g.Keys && forall x :: Exists(f, x) ==> Exists(g, x)
  }

  lemma TargetStays(f: Forest, g: Forest, a: Augment)
    requires Grown(f, g)
    ensures Target(f, a).Some? ==> Target(g, a) == Target(f, a)
  {
    var m := Start(a);
    if m.Some? && m.value in f {
      forall q: Path | Has(f[m.value], q)
        ensures Has(g[m.value], q)
      {
        assert Exists(f, Place(m.value, q));
        assert Exists(g, Place(m.value, q));
      }
      ResolvedStays(f[m.value], g[m.value], [], Parts(a));
    }
  }

  /** The schema once the augment was merged into its target `x`. */
  ghost function Applied(f: Forest, a: Augment, x: Place): Forest
    requires Exists(f, x)
  {
    f[x.module_ := MergedAt(f[x.module_], x.path, a.body, None, Some(a.namespace))]
  }

  // ---------------------------------------------------------------- runs

  /** `all` names the augments; `run` is the order in which some of them are applied to `f`. */
  ghost function After(f: Forest, all: seq<Augment>, run: seq<nat>): Option<Forest>
    decreases |run|
  {
    if run == [] then Some(f)
    else
      var i := run[|run| - 1];
      var g := After(f, all, run[..|run| - 1]);
      if g == None || i >= |all| then None
      else
        var x := Target(g.value, all[i]);
        if x == None then None else Some(Applied(g.value, all[i], x.value))
  }

  predicate Once(run: seq<nat>) {
    forall i, j :: 0 <= i < j < |run| ==> run[i] != run[j]
  }

  lemma Dropped(before: seq<nat>, i: nat, after: seq<nat>)
    requires Once(before + [i] + after)
    ensures Once(before + after)
    ensures forall x :: x in before + [i] + after <==> x in before + after || x == i
    ensures i !in before + after
  {
    var w, v := before + [i] + after, before + after;
    assert w[|before|] == i;
    assert forall j :: 0 <= j < |v| ==> v[j] == w[if j < |before| then j else j + 1];
    assert forall j :: 0 <= j < |w| && j != |before| ==> w[j] == v[if j < |before| then j else j - 1];
  }

  lemma {:induction false} RunSize(run: seq<nat>, n: nat)
    requires Once(run) && forall x :: x in run ==> x < n
    ensures |run| <= n
    decreases n
  {
    if run != [] {
      assert run[0] in run;
      if j :| 0 <= j < |run| && run[j] == n - 1 {
        assert run == run[..j] + [n - 1] + run[j + 1..];
        Dropped(run[..j], n - 1, run[j + 1..]);
        RunSize(run[..j] + run[j + 1..], n - 1);
      } else {
        RunSize(run, n - 1);
      }
    }
  }

  /** A run in which every augment that can be applied is, each once. */
  ghost predicate Complete(f: Forest, all: seq<Augment>, run: seq<nat>) {
    && Once(run)
    && After(f, all, run).Some?
    && forall i: nat :: i < |all| && i !in run ==> Target(After(f, all, run).value, all[i]) == None
  }

  lemma AfterOneMore(f: Forest, all: seq<Augment>, run: seq<nat>, g: Forest, i: nat)
    requires After(f, all, run) == Some(g) && i < |all| && Target(g, all[i]).Some?
    ensures After(f, all, run + [i]) == Some(Applied(g, all[i], Target(g, all[i]).value))
  {
    assert (run + [i])[..|run|] == run;
  }

  /** The body of augment `a` has a node for the place `x`. */
  predicate Brings(a: Augment, x: Place) {
    var g := Goal(a);
    && g.Some?
    && x.module_ == g.value.module_
    && g.value.path < x.path
    && Has(a.body, x.path[|g.value.path|..])
  }

  /** The child of the goal that `y` lies under. */
  function Top(a: Augment, y: Place): Place
    requires Brings(a, y)
  {
    var p := Goal(a).value.path;
    y.(path := p + [y.path[|p|]])
  }

  /** The body's node for the place `x`. */
  function Source(a: Augment, x: Place): Tree
    requires Brings(a, x)
  {
    At(a.body, x.path[|Goal(a).value.path|..]).value
  }

  /** Augment `a` adds the place `x` to `f`: the child it lies under is not there yet. */
  predicate Adds(f: Forest, a: Augment, x: Place) {
    Brings(a, x) && !Exists(f, Top(a, x))
  }

  /** The fields of the node added at `x`: those of the body's node, in the augment's namespace if it is mounted. */
  function AddedInfo(a: Augment, x: Place): Info
    requires Brings(a, x)
  {
    var n := Source(a, x);
    if |x.path| == |Goal(a).value.path| + 1
    then Mounted(n, None, Some(a.namespace), a.body.info.Exts).info else n.info
  }

  lemma BringsTop(a: Augment, y: Place)
    requires Brings(a, y)
    ensures Brings(a, Top(a, y)) && Top(a, Top(a, y)) == Top(a, y)
  {
    var p := Goal(a).value.path;
    var s := y.path[|p|..];
    assert s == [s[0]] + s[1..];
    HasPrefix(a.body, [s[0]], s[1..]);
    assert Top(a, y).path[|p|..] == [s[0]];
  }

  ghost predicate SameFields(n: Tree, info: Info, hasDir: bool) {
    n.info == info && n.hasDir == hasDir
  }

  /** What one augment does to the places of the schema. */
  lemma AppliedNodes(f: Forest, a: Augment, x: Place, y: Place)
    requires Target(f, a) == Some(x)
    ensures var g := Applied(f, a, x);
            && g.Keys == f.Keys
            && (Exists(g, y) <==> Exists(f, y) || Adds(f, a, y))
            && (Exists(f, y) ==> SameFields(Node(g, y), Node(f, y).info, Node(f, y).hasDir))
            && (Exists(g, y) && !Exists(f, y) ==>
                  SameFields(Node(g, y), AddedInfo(a, y), Source(a, y).hasDir)
                  && Node(g, y).Errors == Source(a, y).Errors)
  {
    hide Target, Goal, MergedAt;
    TargetIsGoal(f, a);
    var t, p := f[x.module_], x.path;
    var g := Applied(f, a, x);
    if y.module_ == x.module_ {
      MergedPaths(t, p, a.body, None, Some(a.namespace), y.path);
      if Exists(g, y) && !Exists(f, y) {
        AddedFields(t, p, a, y);
      }
      if Brings(a, y) {
        AtConcat(t, p, [y.path[|p|]]);
      }
    }
  }

  lemma AddedFields(t: Tree, p: Path, a: Augment, y: Place)
    requires Goal(a) == Some(Place(y.module_, p)) && Added(t, p, a.body, y.path)
    requires Has(MergedAt(t, p, a.body, None, Some(a.namespace)), y.path)
    requires !Has(t, y.path)
    ensures var n := At(MergedAt(t, p, a.body, None, Some(a.namespace)), y.path).value;
            && Brings(a, y) && SameFields(n, AddedInfo(a, y), Source(a, y).hasDir)
            && n.Errors == Source(a, y).Errors
  {
    hide MergedAt, Goal, Mounted;
    MergedPaths(t, p, a.body, None, Some(a.namespace), y.path);
    var s := y.path[|p|..];
    var v := a.body.Dir[s[0]];
    assert s[1..] == y.path[|p| + 1..];
    assert At(a.body, s) == At(v, s[1..]);
    MountedPaths(v, None, Some(a.namespace), a.body.info.Exts, s[1..]);
    MountedFields(v, a);
    if s[1..] == [] { assert At(v, s[1..]) == Some(v); }
  }

  lemma MountedFields(v: Tree, a: Augment)
    ensures var m := Mounted(v, None, Some(a.namespace), a.body.info.Exts);
            m.hasDir == v.hasDir && m.Errors == v.Errors && At(m, []) == Some(m)
  {
  }

  // ---------------------------------------------------------------- what a run leaves

  /** The node at `y` is as `f` had it, or as one of the applied augments added it. */
  ghost predicate Explained(f: Forest, all: seq<Augment>, run: seq<nat>, y: Place, n: Tree) {
    if Exists(f, y) then SameFields(n, Node(f, y).info, Node(f, y).hasDir)
    else exists i: nat :: i in run && i < |all| && AddedBy(f, all[i], y, n)
  }

  ghost predicate AddedBy(f: Forest, a: Augment, y: Place, n: Tree) {
    Adds(f, a, y) && SameFields(n, AddedInfo(a, y), Source(a, y).hasDir)
  }

  /** A run keeps every node, and each node it leaves has a source. */
  lemma {:induction false} RunNodes(f: Forest, all: seq<Augment>, run: seq<nat>, y: Place)
    requires After(f, all, run).Some?
    ensures var g := After(f, all, run).value;
            && g.Keys == f.Keys
            && (Exists(f, y) ==> Exists(g, y))
            && (Exists(g, y) ==> Explained(f, all, run, y, Node(g, y)))
    decreases |run|
  {
    hide Exists, Brings, Target, Applied, Top, Source, AddedInfo;
    if run != [] {
      var front, i := run[..|run| - 1], run[|run| - 1];
      RunNodes(f, all, front, y);
      var g := After(f, all, front).value;
      AppliedNodes(g, all[i], Target(g, all[i]).value, y);
      if Brings(all[i], y) { RunNodes(f, all, front, Top(all[i], y)); }
      assert forall j :: j in front ==> j in run;
    }
  }

  /** Once there, a node keeps its fields for the rest of the run. */
  lemma {:induction false} RunKeeps(f: Forest, all: seq<Augment>, run: seq<nat>, k: nat, y: Place)
    requires After(f, all, run).Some? && k <= |run|
    ensures After(f, all, run[..k]).Some?
    ensures var g, h := After(f, all, run[..k]).value, After(f, all, run).value;
            Exists(g, y) ==> Exists(h, y) && SameFields(Node(h, y), Node(g, y).info, Node(g, y).hasDir)
    decreases |run|
  {
    hide Exists, Adds, Target, Applied, Source, AddedInfo;
    if k < |run| {
      var front, i := run[..|run| - 1], run[|run| - 1];
      assert front[..k] == run[..k];
      RunKeeps(f, all, front, k, y);
      var g := After(f, all, front).value;
      AppliedNodes(g, all[i], Target(g, all[i]).value, y);
    } else {
      assert run[..k] == run;
    }
  }

  /** Whatever an augment with children is for can have children. */
  ghost predicate Roomy(f: Forest, all: seq<Augment>) {
    forall i: nat, x :: i < |all| && all[i].body.Dir != map[] && Goal(all[i]) == Some(x) ==>
      && (Exists(f, x) ==> Node(f, x).hasDir)
      && forall j: nat :: j < |all| && Adds(f, all[j], x) ==> Source(all[j], x).hasDir
  }

  lemma RunRoomy(f: Forest, all: seq<Augment>, run: seq<nat>, i: nat)
    requires After(f, all, run).Some? && Roomy(f, all) && i < |all|
    ensures var g := After(f, all, run).value;
            var x := Target(g, all[i]);
            x.Some? ==> Node(g, x.value).hasDir || all[i].body.Dir == map[]
  {
    hide Exists, Adds, Goal, Target, AddedInfo, Source;
    var g := After(f, all, run).value;
    TargetIsGoal(g, all[i]);
    var x := Target(g, all[i]);
    if x.Some? { RunNodes(f, all, run, x.value); }
  }

  // ---------------------------------------------------------------- runs can be completed

  /** Every run can be continued to a complete one. */
  lemma {:induction false} Completed(f: Forest, all: seq<Augment>, run: seq<nat>) returns (full: seq<nat>)
    requires After(f, all, run).Some? && Once(run)
    ensures Complete(f, all, full) && run <= full
    decreases Left(run, |all|)
  {
    hide Target, Applied;
    var g := After(f, all, run).value;
    if i: nat :| i < |all| && i !in run && Target(g, all[i]).Some? {
      AfterOneMore(f, all, run, g, i);
      LessLeft(run, |all|, i);
      full := Completed(f, all, run + [i]);
    } else {
      full := run;
    }
  }

  /** How many of the first `n` numbers are not in the run. */
  ghost function Left(run: seq<nat>, n: nat): nat {
    |set i | 0 <= i < n && i !in run|
  }

  lemma LessLeft(run: seq<nat>, n: nat, i: nat)
    requires i < n && i !in run
    ensures Left(run + [i], n) < Left(run, n)
  {
    var a, b := set j | 0 <= j < n && j !in run + [i], set j | 0 <= j < n && j !in run;
    assert i in b && a == b - {i};
  }
}
