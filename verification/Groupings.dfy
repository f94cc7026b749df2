/** The search for a grouping by name (pkg/yang/find.go). */
module Groupings {

  class Grouping {
    const Name: string

    constructor (name: string)
      ensures Name == name
    {
      Name := name;
    }
  }

  datatype Import = Import(Prefix: string, Module: Node)

  /** A node of a module's statement tree; a node without a parent is a module. */
  class Node {
    const Parent: Node?
    const Name: string
    const Prefix: string            // the prefix a module uses for itself
    const Grouping: seq<Grouping>
    const Import: seq<Import>
    const Include: seq<Node>        // the included submodules
    ghost const depth: nat

    ghost predicate Wf()
      decreases depth
    {
      Parent != null ==> Parent.depth < depth && Parent.Wf()
    }

    constructor (parent: Node?, name: string, prefix: string, groupings: seq<Grouping>,
                 imports: seq<Import>, includes: seq<Node>)
      requires parent != null ==> parent.Wf()
      ensures Parent == parent && Name == name && Prefix == prefix && Grouping == groupings
      ensures Import == imports && Include == includes && Wf()
    {
      Parent, Name, Prefix, Grouping, Import, Include := parent, name, prefix, groupings, imports, includes;
      depth := if parent == null then 0 else parent.depth + 1;
    }

    /** RootNode: the module the node was defined in. */
    function Root(): Node
      requires Wf()
      decreases depth
    {
      if Parent == null then this else Parent.Root()
    }
  }

  /** strings.TrimPrefix. */
  function TrimPrefix(s: string, p: string): (r: string)
    ensures |r| <= |s|
    ensures r != s ==> |r| < |s|
  {
    if p <= s then s[|p|..] else s
  }

  function TrimLocalPrefix(n: Node, name: string): (r: string)
    requires n.Wf()
    ensures |r| <= |name|
  {
    var pfx := n.Root().Prefix;
    TrimPrefix(name, if pfx == "" then "" else pfx + ":")
  }

  /** Only the prefix the module uses for itself goes, with its colon, and only if there is one. */
  lemma LocalPrefixGoes(n: Node, name: string, rest: string)
    requires n.Wf()
    ensures var p := n.Root().Prefix;
            && (p != "" && name == p + ":" + rest ==> TrimLocalPrefix(n, name) == rest)
            && (p == "" || !(p + ":" <= name) ==> TrimLocalPrefix(n, name) == name)
  {
    var p := n.Root().Prefix;
    if name == p + ":" + rest { assert name[|p + ":"|..] == rest; }
  }

  /** `x` is the end of `y`. */
  predicate Ends(y: string, x: string) {
    |x| <= |y| && x == y[|y| - |x|..]
  }

  lemma EndsEnd(x: string, y: string, z: string)
    requires Ends(x, y) && Ends(y, z)
    ensures Ends(x, z)
  {
  }

  lemma PrefixEnds(s: string, p: string)
    ensures Ends(s, TrimPrefix(s, p))
  {
  }

  lemma LocalEnds(n: Node, name: string)
    requires n.Wf()
    ensures Ends(name, TrimLocalPrefix(n, name))
  {
    hide TrimPrefix, Ends;
    var p := n.Root().Prefix;
    PrefixEnds(name, if p == "" then "" else p + ":");
  }

  /** The nodes of a finite graph of modules: parents, imports and includes stay inside. */
  ghost predicate Closed(all: set<Node>) {
    forall n :: n in all ==>
      && n.Wf()
      && (n.Parent != null ==> n.Parent in all)
      && (forall i :: i in n.Import ==> i.Module in all)
      && (forall i :: i in n.Include ==> i in all && i.Parent == null)
  }

  ghost function Names(all: set<Node>): set<string> {
    set n | n in all :: n.Name
  }

  /** `a` is `n` or one of its ancestors. */
  ghost predicate Above(a: Node, n: Node)
    requires n.Wf()
    decreases n.depth
  {
    a == n || (n.Parent != null && Above(a, n.Parent))
  }

  /** `g` is what `name` means at node `n`, found in at most `k` steps across modules. */
  ghost predicate Means(all: set<Node>, n: Node, name: string, g: Grouping, k: nat)
    requires Closed(all) && n in all
    decreases k, 0
  {
    k > 0 &&
    var t := TrimLocalPrefix(n, name);
    exists a :: a in all && Above(a, n) && MeansAt(all, a, t, g, k - 1)
  }

  /** `g` is found by the trimmed name `t` from the statements of node `a`. */
  ghost predicate MeansAt(all: set<Node>, a: Node, t: string, g: Grouping, k: nat)
    requires Closed(all) && a in all
    decreases k, 1
  {
    || (g in a.Grouping && g.Name == t)
    || (exists i :: i in a.Import && TrimPrefix(t, i.Prefix + ":") != t
          && Means(all, i.Module, TrimPrefix(t, i.Prefix + ":"), g, k))
    || (exists i :: i in a.Include && Means(all, i, t, g, k))
  }

  /** A grouping that is found bears a suffix of the name asked for. */
  lemma {:induction false} MeaningIsSuffix(all: set<Node>, n: Node, name: string, g: Grouping, k: nat)
    requires Closed(all) && n in all && Means(all, n, name, g, k)
    ensures Ends(name, g.Name)
    decreases k
  {
    hide TrimPrefix, TrimLocalPrefix, Above, Ends;
    var t := TrimLocalPrefix(n, name);
    LocalEnds(n, name);
    var a :| a in all && Above(a, n) && MeansAt(all, a, t, g, k - 1);
    if !(g in a.Grouping && g.Name == t) {
      if i :| i in a.Import && TrimPrefix(t, i.Prefix + ":") != t
              && Means(all, i.Module, TrimPrefix(t, i.Prefix + ":"), g, k - 1) {
        var rest := TrimPrefix(t, i.Prefix + ":");
        PrefixEnds(t, i.Prefix + ":");
        MeaningIsSuffix(all, i.Module, rest, g, k - 1);
        EndsEnd(t, rest, g.Name);
      } else {
        var j :| j in a.Include && Means(all, j, t, g, k - 1);
        MeaningIsSuffix(all, j, t, g, k - 1);
      }
      EndsEnd(name, t, g.Name);
    }
  }

  ghost predicate Found(all: set<Node>, n: Node, name: string, g: Grouping)
    requires Closed(all) && n in all
  {
    exists k: nat :: Means(all, n, name, g, k)
  }

  lemma {:induction false} AboveParent(a: Node, n: Node)
    requires n.Wf() && Above(a, n) && a.Parent != null
    ensures Above(a.Parent, n)
    decreases n.depth
  {
    if a == n {
      assert Above(a.Parent, n.Parent);
    } else {
      AboveParent(a, n.Parent);
    }
  }

  lemma FoundAt(all: set<Node>, n: Node, name: string, a: Node, g: Grouping, k: nat)
    requires Closed(all) && n in all && a in all && Above(a, n)
    requires MeansAt(all, a, TrimLocalPrefix(n, name), g, k)
    ensures Found(all, n, name, g)
  {
    hide MeansAt, TrimLocalPrefix;
    assert Means(all, n, name, g, k + 1);
  }

  lemma FoundInImport(all: set<Node>, n: Node, name: string, a: Node, i: Import, g: Grouping)
    requires Closed(all) && n in all && a in all && Above(a, n) && i in a.Import
    requires var t := TrimLocalPrefix(n, name);
             TrimPrefix(t, i.Prefix + ":") != t && Found(all, i.Module, TrimPrefix(t, i.Prefix + ":"), g)
    ensures Found(all, n, name, g)
  {
    var t := TrimLocalPrefix(n, name);
    var k: nat :| Means(all, i.Module, TrimPrefix(t, i.Prefix + ":"), g, k);
    FoundAt(all, n, name, a, g, k);
  }

  lemma FoundInInclude(all: set<Node>, n: Node, name: string, a: Node, i: Node, g: Grouping)
    requires Closed(all) && n in all && a in all && Above(a, n) && i in a.Include
    requires Found(all, i, TrimLocalPrefix(n, name), g)
    ensures Found(all, n, name, g)
  {
    var k: nat :| Means(all, i, TrimLocalPrefix(n, name), g, k);
    FoundAt(all, n, name, a, g, k);
  }

  // ---------------------------------------------------------------- found without an include

  /** Node `a` itself has a grouping called `t`. */
  predicate Has(a: Node, t: string) {
    exists g :: g in a.Grouping && g.Name == t
  }

  /** The rest of `t` behind the prefix of the import, if it bears that. */
  predicate Bears(t: string, i: Import) {
    TrimPrefix(t, i.Prefix + ":") != t
  }

  function Rest(t: string, i: Import): (r: string)
    ensures |r| <= |t| && (Bears(t, i) ==> |r| < |t|)
  {
    TrimPrefix(t, i.Prefix + ":")
  }

  /** At the node or above it there is a grouping of that name, or an import that leads to one. */
  ghost predicate Direct(all: set<Node>, n: Node, name: string)
    requires Closed(all) && n in all
    decreases |name|, 1
  {
    exists a :: a in all && Above(a, n) && DirectAt(all, a, TrimLocalPrefix(n, name))
  }

  ghost predicate DirectAt(all: set<Node>, a: Node, t: string)
    requires Closed(all) && a in all
    decreases |t|, 0
  {
    Has(a, t) || exists i :: i in a.Import && Bears(t, i) && Direct(all, i.Module, Rest(t, i))
  }

  /** A grouping of the module itself that an import at or above the node names is such a one. */
  lemma ImportedIsDirect(all: set<Node>, n: Node, name: string, a: Node, i: Import)
    requires Closed(all) && n in all && a in all && Above(a, n) && i in a.Import
    requires var t := TrimLocalPrefix(n, name);
             && i.Prefix + ":" <= t
             && Has(i.Module, TrimLocalPrefix(i.Module, t[|i.Prefix + ":"|..]))
    ensures Direct(all, n, name)
  {
    hide TrimLocalPrefix, Has;
    var t := TrimLocalPrefix(n, name);
    assert Above(i.Module, i.Module) && DirectAt(all, i.Module, TrimLocalPrefix(i.Module, Rest(t, i)));
    assert Direct(all, i.Module, Rest(t, i));
    assert DirectAt(all, a, t);
  }

  // ---------------------------------------------------------------- found through includes

  /**
   `roles` has every module that the search for `name` at `n` includes before it
   includes one, and the name it asks that module for.
   */
  ghost predicate Agrees(all: set<Node>, roles: map<Node, string>, n: Node, name: string)
    requires Closed(all) && n in all
    decreases |name|, 1
  {
    forall a :: a in all && Above(a, n) ==> AgreesAt(all, roles, a, TrimLocalPrefix(n, name))
  }

  ghost predicate AgreesAt(all: set<Node>, roles: map<Node, string>, a: Node, t: string)
    requires Closed(all) && a in all
    decreases |t|, 0
  {
    && (forall i :: i in a.Include ==> i in roles && roles[i] == t)
    && (forall i :: i in a.Import && Bears(t, i) ==> Agrees(all, roles, i.Module, Rest(t, i)))
  }

  /** Modules have names of their own. */
  ghost predicate Distinct(all: set<Node>) {
    forall x, y :: x in all && y in all && x.Parent == null && y.Parent == null && x.Name == y.Name ==> x == y
  }

  /** Every module that is included by one of them is asked for one name only. */
  ghost predicate Steady(all: set<Node>, roles: map<Node, string>)
    requires Closed(all)
  {
    && Distinct(all)
    && forall m :: m in roles ==> m in all && m.Parent == null && Agrees(all, roles, m, roles[m])
  }

  /** The search for `name` at `n` asks each module it includes for one name only. */
  ghost predicate OneNameEach(all: set<Node>, roles: map<Node, string>, n: Node, name: string)
    requires Closed(all) && n in all
  {
    Steady(all, roles) && Agrees(all, roles, n, name)
  }

  predicate Unprefixed(name: string) {
    ':' !in name
  }

  lemma UnprefixedStays(name: string, p: string)
    requires Unprefixed(name)
    ensures TrimPrefix(name, p + ":") == name
  {
    assert (p + ":")[|p|] == ':';
  }

  lemma UnprefixedLocal(n: Node, name: string)
    requires n.Wf() && Unprefixed(name)
    ensures TrimLocalPrefix(n, name) == name
  {
    UnprefixedStays(name, n.Root().Prefix);
  }

  /** A name without a prefix is the only one that is asked for. */
  lemma UnprefixedOnce(all: set<Node>, n: Node, name: string)
    requires Closed(all) && n in all && Distinct(all) && Unprefixed(name)
    ensures OneNameEach(all, map m | m in all && m.Parent == null :: name, n, name)
  {
    hide TrimLocalPrefix, Above;
    var roles := map m | m in all && m.Parent == null :: name;
    forall x, a | x in all && a in all && Above(a, x)
      ensures AgreesAt(all, roles, a, TrimLocalPrefix(x, name))
    {
      UnprefixedLocal(x, name);
      forall i | i in a.Import ensures !Bears(name, i) {
        UnprefixedStays(name, i.Prefix);
      }
    }
  }

  /** Nowhere at `n` or above is a grouping of that name, nor behind an import, and all includes were seen. */
  ghost predicate SearchedAbove(all: set<Node>, n: Node, name: string, seen: set<string>)
    requires Closed(all) && n in all
    decreases |name|, 1
  {
    forall a :: a in all && Above(a, n) ==> Searched(all, a, TrimLocalPrefix(n, name), seen)
  }

  ghost predicate Searched(all: set<Node>, a: Node, t: string, seen: set<string>)
    requires Closed(all) && a in all
    decreases |t|, 0
  {
    && !Has(a, t)
    && (forall i :: i in a.Include ==> i.Name in seen)
    && (forall i :: i in a.Import && Bears(t, i) ==> SearchedAbove(all, i.Module, Rest(t, i), seen))
  }

  /** The modules seen since `before` were searched. */
  ghost predicate SearchedSince(all: set<Node>, roles: map<Node, string>, before: set<string>, seen: set<string>)
    requires Closed(all)
  {
    forall m :: m in roles && m in all && m.Name in seen - before ==> SearchedAbove(all, m, roles[m], seen)
  }

  ghost predicate ImportsSearched(all: set<Node>, list: seq<Import>, t: string, seen: set<string>)
    requires Closed(all)
  {
    forall i :: i in list && i.Module in all && Bears(t, i) ==> SearchedAbove(all, i.Module, Rest(t, i), seen)
  }

  /** No import of the list leads to a grouping without an include. */
  ghost predicate NoneDirect(all: set<Node>, list: seq<Import>, t: string)
    requires Closed(all)
  {
    forall i :: i in list && i.Module in all && Bears(t, i) ==> !Direct(all, i.Module, Rest(t, i))
  }

  class Search {
    var seen: set<string>   // names of the included modules already looked at

    constructor ()
      ensures seen == {}
    {
      seen := {};
    }

    /**
     Looks for `name` at `n`, at its ancestors, and in what they import and
     include; a grouping of the node itself comes first. It ends on every finite
     graph, cycles or not: an import shortens the name, an include grows `seen`,
     and otherwise the search climbs. Whatever was seen before, it finds what can
     be reached without an include.
     */
    method FindGrouping(n: Node, name: string, ghost all: set<Node>, ghost roles: map<Node, string>)
      returns (g: Grouping?)
      requires Closed(all) && n in all
      modifies this
      ensures old(seen) <= seen
      ensures g != null ==> Found(all, n, name, g)
      ensures var t := TrimLocalPrefix(n, name); Has(n, t) ==> g != null && g in n.Grouping && g.Name == t
      ensures Direct(all, n, name) ==> g != null
      ensures g == null && OneNameEach(all, roles, n, name) ==>
                SearchedSince(all, roles, old(seen), seen) && SearchedAbove(all, n, name, seen)
      decreases |name|, |Names(all) - seen|, 2
    {
      hide Found, Searched, SearchedSince, TrimLocalPrefix, Has, DirectAt, AgreesAt, Steady;
      var t := TrimLocalPrefix(n, name);
      var cur: Node? := n;
      ghost var done: set<Node> := {};
      ghost var knows := OneNameEach(all, roles, n, name);
      NothingSearched(all, roles, seen);
      g := null;
      while cur != null
        invariant old(seen) <= seen && g == null && done <= all
        invariant cur == n || !Has(n, t)
        invariant cur != null ==> cur in all && Above(cur, n)
        invariant knows ==> SearchedSince(all, roles, old(seen), seen)
        invariant forall a :: a in done ==> !DirectAt(all, a, t) && (knows ==> Searched(all, a, t, seen))
        invariant forall a :: a in all && Above(a, n) ==> a in done || (cur != null && Above(a, cur))
        decreases if cur == null then 0 else 1 + cur.depth
      {
        label before:
        NamesShrink(all, old(seen), seen);
        g := SearchNode(n, name, t, cur, all, roles);
        if g != null {
          return;
        }
        ghost var now := seen;
        forall a | a in done && knows
          ensures Searched(all, a, t, now)
        {
          SearchedMore(all, a, t, old@before(seen), now);
        }
        if knows { SearchedJoin(all, roles, old(seen), old@before(seen), seen); }
        done := done + {cur};
        if cur.Parent != null { AboveParent(cur, n); }
        cur := cur.Parent;
      }
    }

    /** The groupings, imports and includes of one node. */
    method SearchNode(n: Node, name: string, t: string, cur: Node, ghost all: set<Node>,
                      ghost roles: map<Node, string>) returns (g: Grouping?)
      requires Closed(all) && n in all && cur in all && Above(cur, n) && t == TrimLocalPrefix(n, name)
      modifies this
      ensures old(seen) <= seen
      ensures g != null ==> Found(all, n, name, g)
      ensures Has(cur, t) ==> g != null && g in cur.Grouping && g.Name == t
      ensures DirectAt(all, cur, t) ==> g != null
      ensures g == null && Steady(all, roles) && AgreesAt(all, roles, cur, t) ==>
                SearchedSince(all, roles, old(seen), seen) && Searched(all, cur, t, seen)
      decreases |name|, |Names(all) - seen|, 1
    {
      hide Found, TrimLocalPrefix, Above, SearchedSince, SearchedAbove, Steady, Agrees, Direct, Bears, ImportsSearched;
      for k := 0 to |cur.Grouping|
        invariant seen == old(seen)
        invariant forall j :: 0 <= j < k ==> cur.Grouping[j].Name != t
      {
        g := cur.Grouping[k];
        if g.Name == t {
          FoundAt(all, n, name, cur, g, 0);
          return;
        }
      }
      g := SearchImports(n, name, t, cur, all, roles);
      if g == null {
        NamesShrink(all, old(seen), seen);
        ghost var middle := seen;
        g := SearchIncludes(n, name, t, cur, all, roles);
        if g == null && Steady(all, roles) && AgreesAt(all, roles, cur, t) {
          SearchedJoin(all, roles, old(seen), middle, seen);
          ImportsMore(all, cur.Import, t, middle, seen);
          SearchedImports(all, cur, t, seen);
        }
      }
    }

    /** An import whose prefix the name bears is searched for the rest of the name. */
    method SearchImports(n: Node, name: string, t: string, cur: Node, ghost all: set<Node>,
                         ghost roles: map<Node, string>) returns (g: Grouping?)
      requires Closed(all) && n in all && cur in all && Above(cur, n) && t == TrimLocalPrefix(n, name)
      modifies this
      ensures old(seen) <= seen
      ensures g != null ==> Found(all, n, name, g)
      ensures g == null ==> NoneDirect(all, cur.Import, t)
      ensures g == null && Steady(all, roles) && AgreesAt(all, roles, cur, t) ==>
                SearchedSince(all, roles, old(seen), seen) && ImportsSearched(all, cur.Import, t, seen)
      decreases |name|, |Names(all) - seen|, 0
    {
      hide Found, Above, TrimLocalPrefix, Names, TrimPrefix, ImportsDone, OneNameEach, SearchedSince, SearchedAbove;
      NoImports(all, roles, t, seen);
      ghost var knows := Steady(all, roles) && AgreesAt(all, roles, cur, t);
      hide Steady, AgreesAt, NoneDirect, ImportsSearched, Direct;
      for k := 0 to |cur.Import|
        invariant old(seen) <= seen
        invariant ImportsDone(all, roles, cur.Import[..k], t, old(seen), seen, knows)
      {
        var i := cur.Import[k];
        ClosedImport(all, cur, i);
        var pname := TrimPrefix(t, i.Prefix + ":");
        assert cur.Import[..k + 1] == cur.Import[..k] + [i];
        if pname == t {
          ImportSkipped(all, roles, cur.Import[..k], i, t, old(seen), seen, knows);
          continue;
        }
        LocalShortens(n, name);
        ghost var before := seen;
        g := FindGrouping(i.Module, pname, all, roles);
        if g != null {
          FoundInImport(all, n, name, cur, i, g);
          return;
        }
        if knows { AgreesImport(all, roles, cur, t, i); }
        ImportSearched(all, roles, cur.Import[..k], i, t, old(seen), before, seen, knows);
      }
      assert cur.Import[..|cur.Import|] == cur.Import;
      ImportsAllDone(all, roles, cur.Import, t, old(seen), seen, knows);
      return null;
    }

    /** Included submodules not looked at before are searched for the same name. */
    method SearchIncludes(n: Node, name: string, t: string, cur: Node, ghost all: set<Node>,
                          ghost roles: map<Node, string>) returns (g: Grouping?)
      requires Closed(all) && n in all && cur in all && Above(cur, n) && t == TrimLocalPrefix(n, name)
      modifies this
      ensures old(seen) <= seen
      ensures g != null ==> Found(all, n, name, g)
      ensures g == null ==> forall i :: i in cur.Include ==> i.Name in seen
      ensures g == null && Steady(all, roles) && AgreesAt(all, roles, cur, t) ==>
                SearchedSince(all, roles, old(seen), seen)
      decreases |name|, |Names(all) - seen|, 0
    {
      hide Found, Above, SearchedAbove, SearchedSince, Agrees, TrimLocalPrefix, AllSeen, Direct, Has;
      NothingSearched(all, roles, seen);
      SeenNone(seen);
      ghost var knows := Steady(all, roles) && AgreesAt(all, roles, cur, t);
      for k := 0 to |cur.Include|
        invariant old(seen) <= seen
        invariant knows ==> SearchedSince(all, roles, old(seen), seen)
        invariant AllSeen(cur.Include[..k], seen)
      {
        var i := cur.Include[k];
        assert i in cur.Include && cur.Include[..k + 1] == cur.Include[..k] + [i];
        SeenMore(cur.Include[..k], i, seen, seen + {i.Name});
        if i.Name in seen {
          assert seen + {i.Name} == seen;
          continue;
        }
        ghost var before := seen;
        seen := seen + {i.Name};
        FewerNames(all, i, old(seen), before, seen);
        LocalShortens(n, name);
        ghost var marked := seen;
        g := FindGrouping(i, t, all, roles);
        if g != null {
          FoundInInclude(all, n, name, cur, i, g);
          return;
        }
        SeenStill(cur.Include[..k + 1], marked, seen);
        if knows {
          assert OneNameEach(all, roles, i, t);
          SearchedNew(all, roles, i, before, seen);
          SearchedJoin(all, roles, old(seen), before, seen);
        }
      }
      assert cur.Include[..|cur.Include|] == cur.Include;
      SeenAll(cur.Include, seen);
      return null;
    }
  }

  /** The modules of the list have been looked at. */
  predicate AllSeen(list: seq<Node>, seen: set<string>) {
    forall i :: i in list ==> i.Name in seen
  }

  lemma SeenNone(seen: set<string>)
    ensures AllSeen([], seen)
  {
  }

  lemma SeenMore(list: seq<Node>, i: Node, seen: set<string>, now: set<string>)
    requires AllSeen(list, seen) && seen <= now && i.Name in now
    ensures AllSeen(list + [i], now)
  {
  }

  lemma SeenStill(list: seq<Node>, seen: set<string>, now: set<string>)
    requires AllSeen(list, seen) && seen <= now
    ensures AllSeen(list, now)
  {
  }

  lemma SeenAll(list: seq<Node>, seen: set<string>)
    requires AllSeen(list, seen)
    ensures forall i :: i in list ==> i.Name in seen
  {
  }

  /**
   A search that found nothing is right where each included module is asked for
   one name only: the name means no grouping at the node, however many imports
   and includes away.
   */
  lemma {:induction false} NothingMeant(all: set<Node>, roles: map<Node, string>, n: Node, name: string,
                                        seen: set<string>, g: Grouping, k: nat)
    requires Closed(all) && n in all && OneNameEach(all, roles, n, name)
    requires SearchedSince(all, roles, {}, seen) && SearchedAbove(all, n, name, seen)
    ensures !Means(all, n, name, g, k)
    decreases k
  {
    hide TrimLocalPrefix, Above;
    if Means(all, n, name, g, k) {
      var t := TrimLocalPrefix(n, name);
      var a :| a in all && Above(a, n) && MeansAt(all, a, t, g, k - 1);
      assert Searched(all, a, t, seen) && AgreesAt(all, roles, a, t);
      if i :| i in a.Include && Means(all, i, t, g, k - 1) {
        assert i.Name in seen - {};
        NothingMeant(all, roles, i, t, seen, g, k - 1);
      } else {
        var i :| i in a.Import && Bears(t, i) && Means(all, i.Module, Rest(t, i), g, k - 1);
        NothingMeant(all, roles, i.Module, Rest(t, i), seen, g, k - 1);
      }
    }
  }

  /** The lookup of a uses statement: a search that starts with nothing seen. */
  method LookUp(n: Node, name: string, ghost all: set<Node>, ghost roles: map<Node, string>) returns (g: Grouping?)
    requires Closed(all) && n in all
    ensures g != null ==> Found(all, n, name, g)
    ensures g != null ==> Ends(name, g.Name)
    ensures Has(n, TrimLocalPrefix(n, name)) ==> g != null && g in n.Grouping
    ensures Direct(all, n, name) ==> g != null
    ensures OneNameEach(all, roles, n, name) ==> (g == null <==> !exists h: Grouping :: Found(all, n, name, h))
    ensures Unprefixed(name) && Distinct(all) ==> (g == null <==> !exists h: Grouping :: Found(all, n, name, h))
  {
    hide OneNameEach, Found, Direct, SearchedAbove, SearchedSince, TrimLocalPrefix;
    ghost var unprefixed := Unprefixed(name) && Distinct(all);
    if unprefixed { UnprefixedOnce(all, n, name); }
    ghost var r := if unprefixed then map m | m in all && m.Parent == null :: name else roles;
    var search := new Search();
    g := search.FindGrouping(n, name, all, r);
    if g != null {
      FoundSuffix(all, n, name, g);
    } else if OneNameEach(all, r, n, name) {
      NothingFound(all, r, n, name, search.seen);
    }
  }

  lemma FoundSuffix(all: set<Node>, n: Node, name: string, g: Grouping)
    requires Closed(all) && n in all && Found(all, n, name, g)
    ensures Ends(name, g.Name)
  {
    var k: nat :| Means(all, n, name, g, k);
    MeaningIsSuffix(all, n, name, g, k);
  }

  lemma NothingFound(all: set<Node>, roles: map<Node, string>, n: Node, name: string, seen: set<string>)
    requires Closed(all) && n in all && OneNameEach(all, roles, n, name)
    requires SearchedSince(all, roles, {}, seen) && SearchedAbove(all, n, name, seen)
    ensures !exists h: Grouping :: Found(all, n, name, h)
  {
    hide OneNameEach, SearchedAbove, SearchedSince;
    forall h: Grouping, k: nat ensures !Means(all, n, name, h, k) {
      NothingMeant(all, roles, n, name, seen, h, k);
    }
  }

  lemma LocalShortens(n: Node, name: string)
    requires n.Wf()
    ensures |TrimLocalPrefix(n, name)| <= |name|
  {
  }

  lemma NothingSearched(all: set<Node>, roles: map<Node, string>, seen: set<string>)
    requires Closed(all)
    ensures SearchedSince(all, roles, seen, seen)
  {
  }

  lemma {:induction false} SearchedAboveMore(all: set<Node>, n: Node, name: string, seen: set<string>,
                                             more: set<string>)
    requires Closed(all) && n in all && SearchedAbove(all, n, name, seen) && seen <= more
    ensures SearchedAbove(all, n, name, more)
    decreases |name|, 1
  {
    hide TrimLocalPrefix, Above, Searched;
    forall a | a in all && Above(a, n)
      ensures Searched(all, a, TrimLocalPrefix(n, name), more)
    {
      SearchedMore(all, a, TrimLocalPrefix(n, name), seen, more);
    }
  }

  lemma {:induction false} SearchedMore(all: set<Node>, a: Node, t: string, seen: set<string>, more: set<string>)
    requires Closed(all) && a in all && Searched(all, a, t, seen) && seen <= more
    ensures Searched(all, a, t, more)
    decreases |t|, 0
  {
    hide SearchedAbove, Bears;
    forall i | i in a.Import && Bears(t, i)
      ensures SearchedAbove(all, i.Module, Rest(t, i), more)
    {
      SearchedAboveMore(all, i.Module, Rest(t, i), seen, more);
    }
  }

  lemma SearchedJoin(all: set<Node>, roles: map<Node, string>, s0: set<string>, s1: set<string>, s2: set<string>)
    requires Closed(all)
    requires SearchedSince(all, roles, s0, s1) && SearchedSince(all, roles, s1, s2) && s0 <= s1 <= s2
    ensures SearchedSince(all, roles, s0, s2)
  {
    hide SearchedAbove;
    forall m | m in roles && m in all && m.Name in s2 - s0
      ensures SearchedAbove(all, m, roles[m], s2)
    {
      if m.Name in s1 { SearchedAboveMore(all, m, roles[m], s1, s2); }
    }
  }

  lemma SearchedNew(all: set<Node>, roles: map<Node, string>, i: Node, before: set<string>, seen: set<string>)
    requires Closed(all) && Steady(all, roles) && i in all && i.Parent == null && i in roles
    requires SearchedSince(all, roles, before + {i.Name}, seen) && SearchedAbove(all, i, roles[i], seen)
    ensures SearchedSince(all, roles, before, seen)
  {
    hide SearchedAbove, Agrees;
  }

  /** The imports of the list were searched since `before`; `knows` says that each module is asked for one name. */
  ghost predicate ImportsDone(all: set<Node>, roles: map<Node, string>, list: seq<Import>, t: string,
                              before: set<string>, seen: set<string>, knows: bool)
    requires Closed(all)
  {
    && NoneDirect(all, list, t)
    && (knows ==> SearchedSince(all, roles, before, seen) && ImportsSearched(all, list, t, seen))
  }

  lemma NoImports(all: set<Node>, roles: map<Node, string>, t: string, seen: set<string>)
    requires Closed(all)
    ensures forall knows :: ImportsDone(all, roles, [], t, seen, seen, knows)
  {
    NothingSearched(all, roles, seen);
  }

  lemma ClosedImport(all: set<Node>, a: Node, i: Import)
    requires Closed(all) && a in all && i in a.Import
    ensures i.Module in all
  {
  }

  lemma ImportSkipped(all: set<Node>, roles: map<Node, string>, list: seq<Import>, i: Import, t: string,
                      before: set<string>, seen: set<string>, knows: bool)
    requires Closed(all) && i.Module in all
    requires ImportsDone(all, roles, list, t, before, seen, knows) && !Bears(t, i)
    ensures ImportsDone(all, roles, list + [i], t, before, seen, knows)
  {
    hide Direct, SearchedAbove, SearchedSince, Bears;
  }

  lemma ImportSearched(all: set<Node>, roles: map<Node, string>, list: seq<Import>, i: Import, t: string,
                       before: set<string>, middle: set<string>, seen: set<string>, knows: bool)
    requires Closed(all) && i.Module in all
    requires before <= middle <= seen && ImportsDone(all, roles, list, t, before, middle, knows)
    requires !Direct(all, i.Module, Rest(t, i))
    requires knows ==> SearchedSince(all, roles, middle, seen) && SearchedAbove(all, i.Module, Rest(t, i), seen)
    ensures ImportsDone(all, roles, list + [i], t, before, seen, knows)
  {
    hide Direct, SearchedAbove, SearchedSince, Bears;
    if knows {
      SearchedJoin(all, roles, before, middle, seen);
      ImportsMore(all, list, t, middle, seen);
    }
  }

  lemma ImportsAllDone(all: set<Node>, roles: map<Node, string>, list: seq<Import>, t: string,
                       before: set<string>, seen: set<string>, knows: bool)
    requires Closed(all)
    requires ImportsDone(all, roles, list, t, before, seen, knows)
    ensures NoneDirect(all, list, t)
    ensures knows ==> SearchedSince(all, roles, before, seen) && ImportsSearched(all, list, t, seen)
  {
  }

  lemma AgreesImport(all: set<Node>, roles: map<Node, string>, a: Node, t: string, i: Import)
    requires Closed(all) && a in all && Steady(all, roles) && AgreesAt(all, roles, a, t)
    requires i in a.Import && Bears(t, i)
    ensures OneNameEach(all, roles, i.Module, Rest(t, i))
  {
    hide Agrees, Steady, Bears;
  }

  lemma ImportsMore(all: set<Node>, list: seq<Import>, t: string, seen: set<string>, more: set<string>)
    requires Closed(all)
    requires ImportsSearched(all, list, t, seen) && seen <= more
    ensures ImportsSearched(all, list, t, more)
  {
    hide SearchedAbove, Bears;
    forall i | i in list && i.Module in all && Bears(t, i)
      ensures SearchedAbove(all, i.Module, Rest(t, i), more)
    {
      SearchedAboveMore(all, i.Module, Rest(t, i), seen, more);
    }
  }

  lemma SearchedImports(all: set<Node>, a: Node, t: string, seen: set<string>)
    requires Closed(all) && a in all && !Has(a, t) && forall i :: i in a.Include ==> i.Name in seen
    requires ImportsSearched(all, a.Import, t, seen)
    ensures Searched(all, a, t, seen)
  {
    hide SearchedAbove, Bears;
  }

  lemma SubsetSize<T>(a: set<T>, b: set<T>)
    requires a <= b
    ensures |a| <= |b|
  {
    assert b == a + (b - a);
  }

  lemma FewerNames(all: set<Node>, i: Node, start: set<string>, before: set<string>, seen: set<string>)
    requires i in all && i.Name !in before && start <= before && seen == before + {i.Name}
    ensures |Names(all) - seen| < |Names(all) - start|
  {
    var a, b := Names(all) - seen, Names(all) - start;
    assert i.Name in b && i.Name !in a;
    SubsetSize(a, b - {i.Name});
  }

  lemma NamesShrink(all: set<Node>, before: set<string>, seen: set<string>)
    requires before <= seen
    ensures |Names(all) - seen| <= |Names(all) - before|
  {
    SubsetSize(Names(all) - seen, Names(all) - before);
  }
}
