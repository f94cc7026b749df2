/**
 The children that the augments of the last loop of Process (pkg/yang/modules.go)
 add to choices: no case is put around them any more.
 */
module LateCases {
  import Text
  import opened Wrappers
  import opened Trees
  import opened Choices
  import opened Paths
  import opened Augments
  import opened Confluence
  import opened Notes
  import opened Schedules
  import opened CasePaths
  import opened LateAugments

  ghost predicate AllOnlyCases(f: Forest) {
    forall m :: m in f ==> OnlyCases(f[m])
  }

  function Up(z: Place): Place
    requires z.path != []
  {
    z.(path := z.path[..|z.path| - 1])
  }

  /** The node at `z` is a bare child of a choice without errors. */
  predicate BareIn(f: Forest, z: Place) {
    && z.path != [] && Exists(f, z) && Exists(f, Up(z))
    && Repairs(Node(f, Up(z))) && Node(f, z).info.Kind != Case
  }

  /** The child `k` of the node at `p` is bare. */
  predicate BareAt(t: Tree, p: Path, k: string) {
    Has(t, p) && k in At(t, p).value.Dir && Bare(At(t, p).value, k)
  }

  lemma {:induction false} OnlyCasesMeans(t: Tree)
    ensures OnlyCases(t) <==> forall p, k :: !BareAt(t, p, k)
    decreases t
  {
    if OnlyCases(t) {
      forall p, k
        ensures !BareAt(t, p, k)
      {
        NoBareAt(t, p, k);
      }
    } else {
      var k :| k in t.Dir && !((Repairs(t) ==> t.Dir[k].info.Kind == Case) && OnlyCases(t.Dir[k]));
      if Repairs(t) && t.Dir[k].info.Kind != Case {
        assert BareAt(t, [], k);
      } else {
        OnlyCasesMeans(t.Dir[k]);
        var p, j :| BareAt(t.Dir[k], p, j);
        AtFirst(t, k, p);
        assert BareAt(t, [k] + p, j);
      }
    }
  }

  lemma {:induction false} NoBareAt(t: Tree, p: Path, k: string)
    requires OnlyCases(t)
    ensures !BareAt(t, p, k)
    decreases |p|
  {
    if p != [] && p[0] in t.Dir { NoBareAt(t.Dir[p[0]], p[1..], k); }
  }

  lemma BareIsIn(f: Forest, m: string, p: Path, k: string)
    requires m in f
    ensures BareAt(f[m], p, k) <==> BareIn(f, Place(m, p + [k]))
  {
    var z := Place(m, p + [k]);
    assert z.path[..|p|] == p && Up(z) == Place(m, p);
    if Has(f[m], p) {
      AtConcat(f[m], p, [k]);
      AtFirst(At(f[m], p).value, k, []);
      assert [k] + [] == [k];
    }
  }

  /** A schema has only cases below its sound choices exactly if no place is bare. */
  lemma CasesByPlaces(f: Forest)
    ensures AllOnlyCases(f) <==> forall z :: !BareIn(f, z)
  {
    hide OnlyCases, BareIn, BareAt;
    if AllOnlyCases(f) {
      forall z
        ensures !BareIn(f, z)
      {
        if z.path != [] && z.module_ in f {
          var p, k := z.path[..|z.path| - 1], z.path[|z.path| - 1];
          assert z == Place(z.module_, p + [k]);
          OnlyCasesMeans(f[z.module_]);
          BareIsIn(f, z.module_, p, k);
        } else {
          NowhereBare(f, z);
        }
      }
    } else {
      var m :| m in f && !OnlyCases(f[m]);
      OnlyCasesMeans(f[m]);
      var p, k :| BareAt(f[m], p, k);
      BareIsIn(f, m, p, k);
    }
  }

  lemma NowhereBare(f: Forest, z: Place)
    requires z.path == [] || z.module_ !in f
    ensures !BareIn(f, z)
  {
  }

  // ---------------------------------------------------------------- what a run adds

  /** The errors of a node only grow. */
  lemma ErrorsGrow(h: Forest, all: seq<Augment>, run: seq<nat>, y: Place)
    requires After(h, all, run).Some? && Once(run) && NoClash(h, all, run) && Exists(h, y)
    ensures var e := After(h, all, run).value;
            && Exists(e, y) && Node(e, y).info == Node(h, y).info && Node(h, y).Errors <= Node(e, y).Errors
  {
    hide After, NoClash, Once, Brought, Node, Exists;
    RunNodes(h, all, run, y);
    var e := After(h, all, run).value;
    var errors := RunErrors(h, all, run, y, Node(e, y).info.Name);
  }

  lemma RepairsBefore(h: Forest, all: seq<Augment>, run: seq<nat>, y: Place)
    requires After(h, all, run).Some? && Once(run) && NoClash(h, all, run) && Exists(h, y)
    ensures var e := After(h, all, run).value; Exists(e, y) && (Repairs(Node(e, y)) ==> Repairs(Node(h, y)))
  {
    hide After, NoClash, Once, Node, Exists;
    ErrorsGrow(h, all, run, y);
  }

  /** Augment `i` adds a bare child to a choice: its body has no case there, and the choice ends without errors. */
  ghost predicate AddsBare(h: Forest, e: Forest, a: Augment, z: Place) {
    && Adds(h, a, z) && AddedInfo(a, z).Kind != Case
    && z.path != [] && Exists(e, Up(z)) && Repairs(Node(e, Up(z)))
  }

  /**
   The augments of a run without clashes leave only cases below sound choices
   exactly if none of them adds a bare child to one.
   */
  lemma CasesStay(h: Forest, all: seq<Augment>, run: seq<nat>)
    requires AllOnlyCases(h) && After(h, all, run).Some? && Once(run) && NoClash(h, all, run)
    ensures var e := After(h, all, run).value;
            AllOnlyCases(e) <==> forall i: nat, z :: i in run && i < |all| ==> !AddsBare(h, e, all[i], z)
  {
    hide AllOnlyCases, After, NoClash, Once, AddsBare, BareIn;
    var e := After(h, all, run).value;
    CasesByPlaces(h);
    CasesByPlaces(e);
    if AllOnlyCases(e) {
      forall i: nat, z | i in run && i < |all|
        ensures !AddsBare(h, e, all[i], z)
      {
        AddedIsBare(h, all, run, i, z);
      }
    } else {
      var z :| BareIn(e, z);
      BareIsAdded(h, all, run, z);
    }
  }

  lemma AddedIsBare(h: Forest, all: seq<Augment>, run: seq<nat>, i: nat, z: Place)
    requires After(h, all, run).Some? && Once(run) && NoClash(h, all, run) && i in run && i < |all|
    ensures var e := After(h, all, run).value; AddsBare(h, e, all[i], z) ==> BareIn(e, z)
  {
    hide After, NoClash, Once, Exists, AddedInfo, Adds, Node;
    if Adds(h, all[i], z) { AddedNode(h, all, run, i, z); }
  }

  lemma BareIsAdded(h: Forest, all: seq<Augment>, run: seq<nat>, z: Place)
    requires After(h, all, run).Some? && Once(run) && NoClash(h, all, run) && BareIn(After(h, all, run).value, z)
    ensures var e := After(h, all, run).value;
            BareIn(h, z) || exists i: nat :: i in run && i < |all| && AddsBare(h, e, all[i], z)
  {
    hide After, NoClash, Once, AddedInfo, Adds, Node, Source, Repairs;
    var e := After(h, all, run).value;
    RunNodes(h, all, run, z);
    if Exists(h, z) {
      HasParent(h[z.module_], z.path);
      RepairsBefore(h, all, run, Up(z));
    } else {
      var i: nat :| i in run && i < |all| && AddedBy(h, all[i], z, Node(e, z));
      assert AddsBare(h, e, all[i], z);
    }
  }

  /** Errors noted at roots that are no choices change nothing here. */
  lemma NotedCases(f: Forest, log: Log)
    requires forall m :: m in f ==> f[m].info.Kind != Choice
    ensures AllOnlyCases(Noted(f, log)) <==> AllOnlyCases(f)
  {
    var g := Noted(f, log);
    forall m | m in f
      ensures OnlyCases(g[m]) <==> OnlyCases(f[m])
    {
      assert g[m].Dir == f[m].Dir && !Repairs(g[m]) && !Repairs(f[m]);
    }
  }

  lemma NotedFixed(f: Forest, log: Log, order: seq<string>)
    requires forall m :: m in f ==> f[m].info.Kind != Choice
    ensures FixedIn(Noted(f, log), order) == Noted(FixedIn(f, order), log)
  {
    hide Fixed;
    forall m, errors | m in f
      ensures Fixed(WithErrors(f[m], errors)) == WithErrors(Fixed(f[m]), errors)
    {
      FixedWithErrors(f[m], errors);
    }
    assert FixedIn(Noted(f, log), order).Keys == Noted(FixedIn(f, order), log).Keys;
  }

  lemma FixedWithErrors(t: Tree, errors: multiset<Error>)
    requires t.info.Kind != Choice
    ensures Fixed(WithErrors(t, errors)) == WithErrors(Fixed(t), errors)
  {
    var u := WithErrors(t, errors);
    assert Fixed(u).Dir == Fixed(t).Dir;
  }

  lemma NotedKeyed(f: Forest, log: Log)
    ensures AllKeyed(Noted(f, log)) <==> AllKeyed(f)
  {
    var g := Noted(f, log);
    forall m | m in f
      ensures Keyed(g[m]) <==> Keyed(f[m])
    {
      assert g[m].Dir == f[m].Dir && g[m].hasDir == f[m].hasDir;
    }
  }

  /** The state before the last loop: the modules have their cases. */
  ghost function Repaired(st: State, order: seq<string>): State {
    State(FixedIn(st.schema, order), [], st.waiting, st.mods, st.log)
  }
}
