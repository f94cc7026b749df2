/**
 When the order in which augments are applied does not matter, and when it does
 (the augment loop of pkg/yang/modules.go, on values).
 */
module Confluence {
  import opened Wrappers
  import opened Trees
  import opened Paths
  import opened Augments

  /** No two augments of the run add the same place. */
  ghost predicate NoClash(f: Forest, all: seq<Augment>, run: seq<nat>) {
    forall i, j, x :: i in run && j in run && i != j && i < |all| && j < |all| && Adds(f, all[i], x) ==>
      !Adds(f, all[j], x)
  }

  lemma NoClashPart(f: Forest, all: seq<Augment>, run: seq<nat>, part: seq<nat>)
    requires NoClash(f, all, run) && forall i :: i in part ==> i in run
    ensures NoClash(f, all, part)
  {
    hide Adds;
  }

  lemma AddsTop(f: Forest, a: Augment, y: Place)
    requires Adds(f, a, y)
    ensures Adds(f, a, Top(a, y))
  {
    BringsTop(a, y);
  }

  /** Where nothing clashes, an applied augment adds all it has. */
  lemma {:induction false} RunAdds(f: Forest, all: seq<Augment>, run: seq<nat>, i: nat, y: Place)
    requires After(f, all, run).Some? && Once(run) && NoClash(f, all, run)
    requires i in run && i < |all| && Adds(f, all[i], y)
    ensures Exists(After(f, all, run).value, y)
    decreases |run|
  {
    hide Exists, Brings, Target, Applied, Top, Source, AddedInfo, SameFields;
    var front, last := run[..|run| - 1], run[|run| - 1];
    NoClashPart(f, all, run, front);
    var g := After(f, all, front).value;
    AppliedNodes(g, all[last], Target(g, all[last]).value, y);
    if i in front {
      RunAdds(f, all, front, i, y);
    } else {
      assert i == last;
      var top := Top(all[i], y);
      AddsTop(f, all[i], y);
      RunNodes(f, all, front, top);
    }
  }

  /** Whatever any run applied, a complete run without clashes applied as well. */
  lemma {:induction false} RunWithin(f: Forest, all: seq<Augment>, run: seq<nat>, full: seq<nat>, k: nat)
    requires NoClash(f, all, full) && Complete(f, all, full)
    requires After(f, all, run).Some? && k <= |run|
    ensures forall j :: 0 <= j < k ==> run[j] in full
    decreases k
  {
    hide Adds, Target, Exists, Applied, NoClash, SameFields;
    if k > 0 {
      RunWithin(f, all, run, full, k - 1);
      RunKeeps(f, all, run, k, Place("", []));
      RunKeeps(f, all, run, k - 1, Place("", []));
      var front, i := run[..k - 1], run[k - 1];
      assert run[..k][..k - 1] == front && run[..k][k - 1] == i;
      var g, h := After(f, all, front).value, After(f, all, full).value;
      assert i < |all| && Target(g, all[i]).Some?;
      RunGrown(f, all, front, full);
      TargetStays(g, h, all[i]);
      assert i in full;
    }
  }

  lemma RunGrown(f: Forest, all: seq<Augment>, front: seq<nat>, full: seq<nat>)
    requires NoClash(f, all, full) && Once(full) && After(f, all, full).Some? && After(f, all, front).Some?
    requires forall j :: 0 <= j < |front| ==> front[j] in full
    ensures Grown(After(f, all, front).value, After(f, all, full).value)
  {
    hide Adds, Target, Exists, Applied, NoClash, SameFields;
    var g, h := After(f, all, front).value, After(f, all, full).value;
    forall y | Exists(g, y)
      ensures Exists(h, y)
    {
      RunNodes(f, all, front, y);
      RunNodes(f, all, full, y);
      if !Exists(f, y) {
        var j: nat :| j in front && j < |all| && AddedBy(f, all[j], y, Node(g, y));
        RunAdds(f, all, full, j, y);
      }
    }
    RunNodes(f, all, front, Place("", []));
    RunNodes(f, all, full, Place("", []));
  }

  // ---------------------------------------------------------------- errors

  function Child(y: Place, k: string): Place {
    y.(path := y.path + [k])
  }

  /** One error for each child of `a` that is at its goal `y`, called `name`, from the start. */
  ghost function Refused(f: Forest, a: Augment, y: Place, name: string): multiset<Error> {
    multiset(set k | k in a.body.Dir && Exists(f, Child(y, k)) :: DuplicateNode(k, name))
  }

  /** The errors augment `a` reports at `y`. */
  ghost function Own(f: Forest, a: Augment, y: Place, name: string): multiset<Error> {
    if Goal(a) == Some(y) then AllErrors(a.body) + Refused(f, a, y, name) else multiset{}
  }

  /** The errors the augments of a run report at `y`. */
  ghost function Brought(f: Forest, all: seq<Augment>, run: seq<nat>, y: Place, name: string): multiset<Error>
    decreases |run|
  {
    if run == [] then multiset{}
    else
      var i := run[|run| - 1];
      Brought(f, all, run[..|run| - 1], y, name) + if i < |all| then Own(f, all[i], y, name) else multiset{}
  }

  /** The errors the node at `y` came with. */
  ghost predicate CameWith(f: Forest, all: seq<Augment>, run: seq<nat>, y: Place, errors: multiset<Error>) {
    if Exists(f, y) then errors == Node(f, y).Errors
    else exists i: nat :: i in run && i < |all| && Adds(f, all[i], y) && errors == Source(all[i], y).Errors
  }

  /** What one augment does to the errors of a node that is there. */
  lemma AppliedErrors(g: Forest, a: Augment, x: Place, y: Place)
    requires Target(g, a) == Some(x) && Exists(g, y)
    ensures Goal(a) == Some(x)
    ensures Exists(Applied(g, a, x), y) && Node(Applied(g, a, x), y).Errors ==
              Node(g, y).Errors + if y == x then AllErrors(a.body) + Clashes(Node(g, x), a.body) else multiset{}
  {
    hide Target, Goal, MergedAt, AllErrors, Clashes;
    TargetIsGoal(g, a);
    if y.module_ == x.module_ {
      MergedPaths(g[x.module_], x.path, a.body, None, Some(a.namespace), y.path);
    }
  }

  /** Without clashes among the augments, a merge refuses just the children that were there from the start. */
  lemma RefusedAre(f: Forest, all: seq<Augment>, run: seq<nat>, i: nat)
    requires After(f, all, run).Some? && NoClash(f, all, run + [i]) && i < |all| && i !in run
    requires Target(After(f, all, run).value, all[i]).Some?
    ensures var g := After(f, all, run).value;
            var x := Target(g, all[i]).value;
            Clashes(Node(g, x), all[i].body) == Refused(f, all[i], x, Node(g, x).info.Name)
  {
    hide Target, Goal, Adds, SameFields;
    var g, a := After(f, all, run).value, all[i];
    var x := Target(g, a).value;
    TargetIsGoal(g, a);
    forall k | k in a.body.Dir
      ensures k in Node(g, x).Dir <==> Exists(f, Child(x, k))
    {
      var y := Child(x, k);
      AtConcat(g[x.module_], x.path, [k]);
      if !Exists(f, y) { AddsChild(f, a, x, k); }
      RunNodes(f, all, run, y);
      assert i in run + [i] && forall j :: j in run ==> j in run + [i];
    }
  }

  lemma AddsChild(f: Forest, a: Augment, x: Place, k: string)
    requires Goal(a) == Some(x) && k in a.body.Dir && !Exists(f, Child(x, k))
    ensures Adds(f, a, Child(x, k))
  {
    assert (x.path + [k])[|x.path|..] == [k] && [k][1..] == [];
    assert Has(a.body, [k]);
  }

  /** Nothing was reported at a place that is not there yet. */
  lemma {:induction false} NothingBrought(f: Forest, all: seq<Augment>, run: seq<nat>, y: Place, name: string)
    requires After(f, all, run).Some? && !Exists(After(f, all, run).value, y)
    ensures Brought(f, all, run, y, name) == multiset{}
    decreases |run|
  {
    hide Exists, Target, Goal, Applied, AllErrors, Refused, Adds, SameFields;
    if run != [] {
      var front, i := run[..|run| - 1], run[|run| - 1];
      var g := After(f, all, front).value;
      TargetIsGoal(g, all[i]);
      AppliedNodes(g, all[i], Target(g, all[i]).value, y);
      NothingBrought(f, all, front, y, name);
    }
  }

  /** After a run without clashes a node has the errors it came with and those of the augments for it. */
  lemma {:induction false} RunErrors(f: Forest, all: seq<Augment>, run: seq<nat>, y: Place, name: string)
    returns (errors: multiset<Error>)
    requires After(f, all, run).Some? && Once(run) && NoClash(f, all, run)
    requires Exists(After(f, all, run).value, y) && Node(After(f, all, run).value, y).info.Name == name
    ensures CameWith(f, all, run, y, errors)
    ensures Node(After(f, all, run).value, y).Errors == errors + Brought(f, all, run, y, name)
    decreases |run|
  {
    hide Exists, Target, Goal, Applied, AllErrors, Adds, NoClash, Clashes, Node, Source, AddedInfo, Explained,
         CameWith, Refused;
    if run == [] {
      errors := Node(f, y).Errors;
      CameFirst(f, all, run, y);
    } else {
      var front, i := run[..|run| - 1], run[|run| - 1];
      var g := After(f, all, front).value;
      var x := Target(g, all[i]).value;
      assert i !in front && run == front + [i];
      NoClashPart(f, all, run, front);
      AppliedNodes(g, all[i], x, y);
      TargetIsGoal(g, all[i]);
      if Exists(g, y) {
        errors := RunErrors(f, all, front, y, name);
        AppliedErrors(g, all[i], x, y);
        RefusedAre(f, all, front, i);
        CameBefore(f, all, front, i, y, errors);
      } else {
        NothingBrought(f, all, front, y, name);
        AddsBrings(g, all[i], y);
        errors := Source(all[i], y).Errors;
        CameLast(f, all, front, i, y);
      }
    }
  }

  lemma AddsBrings(f: Forest, a: Augment, y: Place)
    requires Adds(f, a, y)
    ensures Brings(a, y)
  {
  }

  lemma CameFirst(f: Forest, all: seq<Augment>, run: seq<nat>, y: Place)
    requires Exists(f, y)
    ensures CameWith(f, all, run, y, Node(f, y).Errors)
  {
  }

  lemma CameBefore(f: Forest, all: seq<Augment>, front: seq<nat>, i: nat, y: Place, errors: multiset<Error>)
    requires CameWith(f, all, front, y, errors)
    ensures CameWith(f, all, front + [i], y, errors)
  {
    hide Exists, Adds, Source;
    assert forall j :: j in front ==> j in front + [i];
  }

  lemma CameLast(f: Forest, all: seq<Augment>, front: seq<nat>, i: nat, y: Place)
    requires After(f, all, front).Some? && i < |all| && Adds(After(f, all, front).value, all[i], y)
    requires !Exists(After(f, all, front).value, y)
    ensures CameWith(f, all, front + [i], y, Source(all[i], y).Errors)
  {
    hide Exists, Brings, Source, SameFields;
    RunNodes(f, all, front, y);
    RunNodes(f, all, front, Top(all[i], y));
    assert i in front + [i];
  }

  lemma BroughtNext(f: Forest, all: seq<Augment>, run: seq<nat>, i: nat, y: Place, name: string)
    requires i < |all|
    ensures Brought(f, all, run + [i], y, name) == Brought(f, all, run, y, name) + Own(f, all[i], y, name)
  {
    hide Own;
    assert (run + [i])[..|run|] == run;
  }

  lemma BroughtNever(f: Forest, all: seq<Augment>, run: seq<nat>, i: nat, y: Place, name: string)
    requires i >= |all|
    ensures Brought(f, all, run + [i], y, name) == Brought(f, all, run, y, name)
  {
    hide Own;
    assert (run + [i])[..|run|] == run;
  }

  lemma {:induction false} BroughtWithout(f: Forest, all: seq<Augment>, before: seq<nat>, i: nat, after: seq<nat>,
                                          y: Place, name: string)
    requires i < |all|
    ensures Brought(f, all, before + [i] + after, y, name)
         == Brought(f, all, before + after, y, name) + Own(f, all[i], y, name)
    decreases |after|
  {
    hide *;
    if after == [] {
      assert before + [i] + after == before + [i] && before + after == before;
      BroughtNext(f, all, before, i, y, name);
    } else {
      var front, last := after[..|after| - 1], after[|after| - 1];
      assert before + [i] + after == before + [i] + front + [last] && before + after == before + front + [last];
      BroughtWithout(f, all, before, i, front, y, name);
      if last < |all| {
        BroughtNext(f, all, before + [i] + front, last, y, name);
        BroughtNext(f, all, before + front, last, y, name);
      } else {
        BroughtNever(f, all, before + [i] + front, last, y, name);
        BroughtNever(f, all, before + front, last, y, name);
      }
    }
  }

  /** Which errors are reported at a node does not depend on the order. */
  lemma {:induction false} BroughtInAnyOrder(f: Forest, all: seq<Augment>, run: seq<nat>, other: seq<nat>,
                                             y: Place, name: string)
    requires Once(run) && Once(other) && forall i :: i in run <==> i in other
    requires forall i :: i in run ==> i < |all|
    ensures Brought(f, all, run, y, name) == Brought(f, all, other, y, name)
    decreases |run|
  {
    hide Own;
    assert other != [] ==> other[0] in run;
    if run != [] {
      var front, i := run[..|run| - 1], run[|run| - 1];
      assert run == front + [i] + [] && front + [] == front;
      Dropped(front, i, []);
      var j :| 0 <= j < |other| && other[j] == i;
      var before, after := other[..j], other[j + 1..];
      assert other == before + [i] + after;
      Dropped(before, i, after);
      BroughtWithout(f, all, before, i, after, y, name);
      BroughtInAnyOrder(f, all, front, before + after, y, name);
    }
  }

  // ---------------------------------------------------------------- any order

  /**
   Where no two augments of one complete run clash, the order does not matter:
   every complete run applies the same augments and leaves the same schema,
   down to fields, namespaces and errors.
   */
  lemma Confluent(f: Forest, all: seq<Augment>, run: seq<nat>, other: seq<nat>)
    requires NoClash(f, all, run) && Complete(f, all, run) && Complete(f, all, other)
    ensures forall i :: i in run <==> i in other
    ensures After(f, all, run) == After(f, all, other)
  {
    hide NoClash, After, Target;
    RunWithin(f, all, other, run, |other|);
    NoClashPart(f, all, run, other);
    RunWithin(f, all, run, other, |run|);
    SameSchemas(f, all, run, other);
  }

  /** Two runs of the same augments, none of which clash, leave the same schema. */
  lemma SameSchemas(f: Forest, all: seq<Augment>, run: seq<nat>, other: seq<nat>)
    requires SameRuns(f, all, run, other)
    ensures After(f, all, run) == After(f, all, other)
  {
    hide After, SameRuns, SameAt, Explained;
    SameRunsMeans(f, all, run, other);
    var g, h := After(f, all, run).value, After(f, all, other).value;
    RunNodes(f, all, run, Place("", []));
    RunNodes(f, all, other, Place("", []));
    forall m | m in g
      ensures g[m] == h[m]
    {
      forall q
        ensures SameAt(g[m], h[m], q)
      {
        SameNode(f, all, run, other, m, q);
      }
      SameTree(g[m], h[m]);
    }
    assert g == h;
  }

  lemma SameRunsMeans(f: Forest, all: seq<Augment>, run: seq<nat>, other: seq<nat>)
    requires SameRuns(f, all, run, other)
    ensures After(f, all, run).Some? && After(f, all, other).Some?
  {
  }

  ghost predicate SameRuns(f: Forest, all: seq<Augment>, run: seq<nat>, other: seq<nat>) {
    && NoClash(f, all, run) && NoClash(f, all, other) && Once(run) && Once(other)
    && After(f, all, run).Some? && After(f, all, other).Some?
    && forall i :: i in run <==> i in other
  }

  lemma SameNode(f: Forest, all: seq<Augment>, run: seq<nat>, other: seq<nat>, m: string, q: Path)
    requires SameRuns(f, all, run, other)
    requires m in After(f, all, run).value && m in After(f, all, other).value
    ensures SameAt(After(f, all, run).value[m], After(f, all, other).value[m], q)
  {
    hide Adds, AddedInfo, Source, Explained, CameWith, After, NoClash;
    var y := Place(m, q);
    SameField(f, all, run, other, y);
    SameField(f, all, other, run, y);
    if Exists(After(f, all, run).value, y) { SameErrors(f, all, run, other, y); }
  }

  lemma SameField(f: Forest, all: seq<Augment>, run: seq<nat>, other: seq<nat>, y: Place)
    requires SameRuns(f, all, run, other)
    ensures var g, h := After(f, all, run).value, After(f, all, other).value;
            Exists(g, y) ==>
              Exists(h, y) && Node(g, y).info == Node(h, y).info && Node(g, y).hasDir == Node(h, y).hasDir
  {
    hide Adds, Exists, AddedInfo, Source, After;
    RunNodes(f, all, run, y);
    RunNodes(f, all, other, y);
    var g := After(f, all, run).value;
    if Exists(g, y) && !Exists(f, y) {
      var i: nat :| i in run && i < |all| && AddedBy(f, all[i], y, Node(g, y));
      RunAdds(f, all, other, i, y);
    }
  }

  lemma SameErrors(f: Forest, all: seq<Augment>, run: seq<nat>, other: seq<nat>, y: Place)
    requires SameRuns(f, all, run, other)
    requires Exists(After(f, all, run).value, y) && Exists(After(f, all, other).value, y)
    ensures Node(After(f, all, run).value, y).Errors == Node(After(f, all, other).value, y).Errors
  {
    hide Adds, Exists, Source, Brought, Node, After;
    SameField(f, all, run, other, y);
    var name := Node(After(f, all, run).value, y).info.Name;
    var a := RunErrors(f, all, run, y, name);
    var b := RunErrors(f, all, other, y, name);
    InBounds(f, all, run);
    BroughtInAnyOrder(f, all, run, other, y, name);
  }

  lemma {:induction false} InBounds(f: Forest, all: seq<Augment>, run: seq<nat>)
    requires After(f, all, run).Some?
    ensures forall i :: i in run ==> i < |all|
    decreases |run|
  {
    hide Target, Applied;
    if run != [] {
      InBounds(f, all, run[..|run| - 1]);
      assert run == run[..|run| - 1] + [run[|run| - 1]];
    }
  }

  // ---------------------------------------------------------------- a clash

  /** The node at `y` when augment `i` is applied first. */
  lemma FirstAdds(f: Forest, all: seq<Augment>, run: seq<nat>, i: nat, y: Place)
    requires After(f, all, run).Some? && [i] <= run && i < |all| && Adds(f, all[i], y)
    ensures var g := After(f, all, run).value;
            Exists(g, y) && SameFields(Node(g, y), AddedInfo(all[i], y), Source(all[i], y).hasDir)
  {
    hide Exists, Target, Applied, Source, AddedInfo, SameFields, Node, Brings;
    assert run[..1] == [i];
    RunKeeps(f, all, run, 1, y);
    assert [i][..0] == [];
    var x := Target(f, all[i]).value;
    AppliedNodes(f, all[i], x, y);
    NotYet(f, all[i], y);
    SameFieldsMeans();
  }

  lemma NotYet(f: Forest, a: Augment, y: Place)
    requires Adds(f, a, y)
    ensures !Exists(f, y)
  {
    var p := Goal(a).value.path;
    if Exists(f, y) {
      assert y.path == Top(a, y).path + y.path[|p| + 1..];
      HasPrefix(f[y.module_], Top(a, y).path, y.path[|p| + 1..]);
    }
  }

  lemma SameFieldsMeans()
    ensures forall n, info, hasDir :: SameFields(n, info, hasDir) <==> n.info == info && n.hasDir == hasDir
  {
  }

  /** Two augments add the place `y` with different fields. */
  predicate Clash(f: Forest, a: Augment, b: Augment, y: Place) {
    && Adds(f, a, y) && Adds(f, b, y)
    && (AddedInfo(a, y) != AddedInfo(b, y) || Source(a, y).hasDir != Source(b, y).hasDir)
  }

  /** The nodes at `y` differ. */
  ghost predicate DifferAt(g: Forest, h: Forest, y: Place) {
    && Exists(g, y) && Exists(h, y)
    && !SameFields(Node(h, y), Node(g, y).info, Node(g, y).hasDir)
  }

  /** Whichever of two clashing augments comes first decides what the node is. */
  lemma FirstDecides(f: Forest, all: seq<Augment>, run: seq<nat>, other: seq<nat>, i: nat, j: nat, y: Place)
    requires After(f, all, run).Some? && After(f, all, other).Some? && [i] <= run && [j] <= other
    requires i < |all| && j < |all| && Clash(f, all[i], all[j], y)
    ensures DifferAt(After(f, all, run).value, After(f, all, other).value, y)
  {
    hide Adds, After;
    FirstAdds(f, all, run, i, y);
    FirstAdds(f, all, other, j, y);
  }

  /** So two augments that clash and both have a target from the start make the order matter. */
  lemma ClashMatters(f: Forest, all: seq<Augment>, i: nat, j: nat, y: Place)
    returns (run: seq<nat>, other: seq<nat>)
    requires i < |all| && j < |all| && Clash(f, all[i], all[j], y)
    requires Target(f, all[i]).Some? && Target(f, all[j]).Some?
    ensures Complete(f, all, run) && Complete(f, all, other)
    ensures DifferAt(After(f, all, run).value, After(f, all, other).value, y)
  {
    hide Target, Applied, Clash, DifferAt;
    AfterOneMore(f, all, [], f, i);
    AfterOneMore(f, all, [], f, j);
    assert [] + [i] == [i] && [] + [j] == [j];
    run := Completed(f, all, [i]);
    other := Completed(f, all, [j]);
    FirstDecides(f, all, run, other, i, j, y);
  }

  // ---------------------------------------------------------------- namespaces

  /** No run moves a node to another namespace. */
  lemma RunKeepsNamespace(f: Forest, all: seq<Augment>, run: seq<nat>, y: Place, own: string)
    requires After(f, all, run).Some? && Exists(f, y)
    ensures var g := After(f, all, run).value;
            Exists(g, y) && NamespaceBelow(g[y.module_], y.path, own) == NamespaceBelow(f[y.module_], y.path, own)
  {
    hide After, NamespaceBelow, SameFields;
    var g := After(f, all, run).value;
    RunNodes(f, all, run, y);
    var t, u, q := f[y.module_], g[y.module_], y.path;
    forall i | 0 < i <= |q|
      ensures Has(t, q[..i]) && Has(u, q[..i]) && At(t, q[..i]).value.info == At(u, q[..i]).value.info
    {
      assert q == q[..i] + q[i..];
      HasPrefix(t, q[..i], q[i..]);
      RunNodes(f, all, run, Place(y.module_, q[..i]));
      SameFieldsMeans();
    }
    SameWayDown(t, u, q, own);
  }

  /** What an augment added is in its namespace, unless a mark further in says otherwise, whatever else was applied. */
  lemma RunNamespace(f: Forest, all: seq<Augment>, run: seq<nat>, i: nat, y: Place, own: string)
    requires After(f, all, run).Some? && Once(run) && NoClash(f, all, run)
    requires i in run && i < |all| && Adds(f, all[i], y)
    ensures var g, a := After(f, all, run).value, all[i];
            var n := |Goal(a).value.path|;
            var v, s := a.body.Dir[y.path[n]], y.path[n + 1..];
            && Exists(g, y) && Has(v, s)
            && NamespaceBelow(g[y.module_], y.path, own) == NamespaceBelow(v, s, a.namespace)
            && (Unmarked(v, s) ==> NamespaceBelow(g[y.module_], y.path, own) == a.namespace)
  {
    hide After, NamespaceBelow, NoClash, Unmarked, SameFields, Once, Target;
    var g, a := After(f, all, run).value, all[i];
    var p := Goal(a).value.path;
    var k, s := y.path[|p|], y.path[|p| + 1..];
    var v, top := a.body.Dir[k], p + [k];
    RunAdds(f, all, run, i, y);
    assert y.path == top + s && y.path[|p|..] == [k] + s;
    AtFirst(a.body, k, s);
    var t := g[y.module_];
    HasPrefix(t, top, s);
    var u := At(t, top).value;
    AddedAt(f, all, run, i, y, 0);
    assert top + s[..0] == top;
    NamespaceSplit(t, top, s, own);
    NearestMark(t, p, k, own);
    forall l | 0 < l <= |s|
      ensures Has(u, s[..l]) && Has(v, s[..l]) && At(u, s[..l]).value.info == At(v, s[..l]).value.info
    {
      AddedAt(f, all, run, i, y, l);
      AtConcat(t, top, s[..l]);
    }
    SameWayDown(u, v, s, a.namespace);
    if Unmarked(v, s) { UnmarkedInherits(v, s, a.namespace); }
  }

  /** The node `l` steps below the mounted one, on the way to `y`. */
  lemma AddedAt(f: Forest, all: seq<Augment>, run: seq<nat>, i: nat, y: Place, l: nat)
    requires After(f, all, run).Some? && Once(run) && NoClash(f, all, run)
    requires i in run && i < |all| && Adds(f, all[i], y)
    requires |Goal(all[i]).value.path| + 1 + l <= |y.path|
    ensures var g, a := After(f, all, run).value, all[i];
            var n := |Goal(a).value.path|;
            var v, s := a.body.Dir[y.path[n]], y.path[n + 1..];
            && y.path[n] in a.body.Dir && Has(v, s[..l])
            && var z := Place(y.module_, Goal(a).value.path + [y.path[n]] + s[..l]);
               && Exists(g, z)
               && (l == 0 ==> Node(g, z).info.namespace == Some(a.namespace))
               && (l > 0 ==> Node(g, z).info == At(v, s[..l]).value.info)
  {
    hide After, NoClash, Target;
    var g, a := After(f, all, run).value, all[i];
    var p := Goal(a).value.path;
    var k, s := y.path[|p|], y.path[|p| + 1..];
    var z := Place(y.module_, p + [k] + s[..l]);
    AddsOnTheWay(f, a, y, l);
    AddedNode(f, all, run, i, z);
    assert |z.path| == |p| + 1 + l && z.path[|p|] == k && z.path[|p| + 1..] == s[..l];
  }

  /** What brings `y` brings the nodes on the way to it. */
  lemma AddsOnTheWay(f: Forest, a: Augment, y: Place, l: nat)
    requires Adds(f, a, y) && |Goal(a).value.path| + 1 + l <= |y.path|
    ensures var p := Goal(a).value.path;
            var k, s := y.path[|p|], y.path[|p| + 1..][..l];
            && Adds(f, a, Place(y.module_, p + [k] + s)) && k in a.body.Dir && Has(a.body.Dir[k], s)
            && Source(a, Place(y.module_, p + [k] + s)) == At(a.body.Dir[k], s).value
  {
    hide Exists;
    var p := Goal(a).value.path;
    var k, s := y.path[|p|], y.path[|p| + 1..];
    var z := Place(y.module_, p + [k] + s[..l]);
    assert y.path[|p|..] == [k] + s == ([k] + s[..l]) + s[l..];
    HasPrefix(a.body, [k] + s[..l], s[l..]);
    AtFirst(a.body, k, s[..l]);
    assert z.path[|p|..] == [k] + s[..l];
    assert Top(a, z) == Top(a, y);
  }

  /** A node that an applied augment adds has the fields of its body. */
  lemma AddedNode(f: Forest, all: seq<Augment>, run: seq<nat>, i: nat, z: Place)
    requires After(f, all, run).Some? && Once(run) && NoClash(f, all, run)
    requires i in run && i < |all| && Adds(f, all[i], z)
    ensures var g := After(f, all, run).value;
            Exists(g, z) && Node(g, z).info == AddedInfo(all[i], z)
  {
    hide After, NoClash, Adds, Exists, AddedInfo;
    var g := After(f, all, run).value;
    RunAdds(f, all, run, i, z);
    NotYet(f, all[i], z);
    RunNodes(f, all, run, z);
    var j: nat :| j in run && j < |all| && AddedBy(f, all[j], z, Node(g, z));
    OnlyOne(f, all, run, i, j, z);
  }

  lemma OnlyOne(f: Forest, all: seq<Augment>, run: seq<nat>, i: nat, j: nat, z: Place)
    requires NoClash(f, all, run) && i in run && j in run && i < |all| && j < |all|
    requires Adds(f, all[i], z) && Adds(f, all[j], z)
    ensures i == j
  {
    hide Adds;
  }
}
