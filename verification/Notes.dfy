/**
 The errors that trying augments leaves at the roots of their modules (Find and
 Augment of pkg/yang/entry.go), beside the schema.
 */
module Notes {
  import opened Wrappers
  import opened Trees
  import opened Paths
  import opened Augments

  /** The errors noted at the root of each module. */
  type Log = map<string, multiset<Error>>

  /** The schema with the errors noted. */
  function Noted(g: Forest, log: Log): Forest {
    map m | m in g :: if m in log then WithErrors(g[m], log[m]) else g[m]
  }

  function WithErrors(t: Tree, errors: multiset<Error>): Tree {
    t.(Errors := t.Errors + errors)
  }

  function Note(log: Log, m: string, errors: multiset<Error>): Log {
    if errors == multiset{} then log
    else log[m := (if m in log then log[m] else multiset{}) + errors]
  }

  /** The prefix of the name leads to none of the modules `mods`. */
  predicate Lost(mods: set<string>, a: Augment) {
    var parts := Parts(a);
    var prefix := if parts == [] then "" else PrefixOf(parts[0]);
    prefix != "" && !(prefix in a.imports && a.imports[prefix] in mods)
  }

  /** What looking for the target of an augment notes. */
  function Trying(mods: set<string>, a: Augment): multiset<Error> {
    if Lost(mods, a) then multiset{UnknownPrefix(a.name)} else multiset{}
  }

  /** What looking for the targets of a list notes: one error for each prefix that leads nowhere. */
  function Tried(all: seq<Augment>, mods: set<string>, list: seq<nat>): multiset<Error> {
    if list == [] then multiset{}
    else
      var i := list[|list| - 1];
      Tried(all, mods, list[..|list| - 1])
      + if i < |all| then Trying(mods, all[i]) else multiset{}
  }

  /** What is noted of the augments of a list that are left at the end. */
  function Missed(all: seq<Augment>, list: seq<nat>): multiset<Error> {
    if list == [] then multiset{}
    else
      var i := list[|list| - 1];
      Missed(all, list[..|list| - 1]) + if i < |all| then multiset{NotFound(all[i].name)} else multiset{}
  }

  lemma NotedNothing(g: Forest)
    ensures Noted(g, map[]) == g
  {
  }

  lemma NotedMore(g: Forest, log: Log, m: string, errors: multiset<Error>)
    requires m in g
    ensures var h := Noted(g, log); m in h && Noted(g, Note(log, m, errors)) == h[m := WithErrors(h[m], errors)]
  {
    var h, more := Noted(g, log), Noted(g, Note(log, m, errors));
    if errors == multiset{} {
      assert h[m].Errors + errors == h[m].Errors;
    } else if m in log {
      assert g[m].Errors + log[m] + errors == g[m].Errors + (log[m] + errors);
    } else {
      assert multiset{} + errors == errors;
    }
    assert more[m] == WithErrors(h[m], errors);
    assert forall n :: n in g && n != m ==> more[n] == h[n];
  }

  lemma NoteTwice(log: Log, m: string, a: multiset<Error>, b: multiset<Error>)
    ensures Note(Note(log, m, a), m, b) == Note(log, m, a + b)
  {
    if a == multiset{} {
      assert a + b == b;
    } else if b == multiset{} {
      assert a + b == a;
    } else {
      assert a + b != multiset{};
      var before := if m in log then log[m] else multiset{};
      assert before + a + b == before + (a + b);
    }
  }

  /** The notes are at the roots and change nothing else. */
  lemma NotedNodes(g: Forest, log: Log, y: Place)
    ensures Exists(Noted(g, log), y) <==> Exists(g, y)
    ensures Exists(g, y) ==>
              && SameFields(Node(Noted(g, log), y), Node(g, y).info, Node(g, y).hasDir)
              && (y.path != [] ==> Node(Noted(g, log), y) == Node(g, y))
  {
  }

  lemma NotedTarget(g: Forest, log: Log, a: Augment)
    ensures Target(Noted(g, log), a) == Target(g, a)
  {
    hide Target, Exists, Node, SameFields;
    var h := Noted(g, log);
    forall y
      ensures Exists(h, y) <==> Exists(g, y)
    {
      NotedNodes(g, log, y);
    }
    TargetStays(g, h, a);
    TargetStays(h, g, a);
  }

  /** Noting errors and applying an augment commute. */
  lemma NotedApplied(g: Forest, log: Log, a: Augment, x: Place)
    requires Exists(g, x)
    ensures Exists(Noted(g, log), x) && Applied(Noted(g, log), a, x) == Noted(Applied(g, a, x), log)
  {
    NotedNodes(g, log, x);
    if x.module_ in log { ErrorsMerge(g[x.module_], log[x.module_], x.path, a); }
  }

  lemma ErrorsMerge(t: Tree, errors: multiset<Error>, p: Path, a: Augment)
    requires Has(t, p)
    ensures var u := WithErrors(t, errors);
            Has(u, p) && MergedAt(u, p, a.body, None, Some(a.namespace))
                      == WithErrors(MergedAt(t, p, a.body, None, Some(a.namespace)), errors)
  {
    hide AllErrors;
    var u := WithErrors(t, errors);
    if p == [] {
      var more := AllErrors(a.body) + Clashes(t, a.body);
      assert Clashes(u, a.body) == Clashes(t, a.body);
      assert t.Errors + errors + AllErrors(a.body) + Clashes(t, a.body)
          == t.Errors + AllErrors(a.body) + Clashes(t, a.body) + errors;
      assert Merged(u, a.body, None, Some(a.namespace))
          == WithErrors(Merged(t, a.body, None, Some(a.namespace)), errors);
    }
  }

  /** An augment with such a prefix has no target. */
  lemma LostHasNone(g: Forest, a: Augment)
    requires Lost(g.Keys, a)
    ensures Target(g, a) == None
  {
  }

  /** Where every prefix leads to a module, looking for targets notes nothing. */
  lemma {:induction false} NoneLost(all: seq<Augment>, mods: set<string>, list: seq<nat>)
    requires forall i :: i in list && i < |all| ==> !Lost(mods, all[i])
    ensures Tried(all, mods, list) == multiset{}
    decreases |list|
  {
    hide Lost;
    if list != [] { NoneLost(all, mods, list[..|list| - 1]); }
  }

  lemma TriedNext(all: seq<Augment>, mods: set<string>, list: seq<nat>, i: nat)
    ensures Tried(all, mods, list + [i])
         == Tried(all, mods, list) + if i < |all| then Trying(mods, all[i]) else multiset{}
  {
    hide Trying;
    assert (list + [i])[..|list|] == list;
  }

  lemma MissedNext(all: seq<Augment>, list: seq<nat>, i: nat)
    ensures Missed(all, list + [i])
         == Missed(all, list) + if i < |all| then multiset{NotFound(all[i].name)} else multiset{}
  {
    assert (list + [i])[..|list|] == list;
  }

  // ---------------------------------------------------------------- a list under way

  /** What trying `tried` notes when `left` are left of them; `addErrors` says whether those are noted. */
  function Noting(all: seq<Augment>, mods: set<string>, tried: seq<nat>, left: seq<nat>, addErrors: bool)
    : multiset<Error>
  {
    Tried(all, mods, tried) + if addErrors then Missed(all, left) else multiset{}
  }

  lemma NotingNothing(log: Log, m: string, all: seq<Augment>, mods: set<string>, addErrors: bool)
    ensures Note(log, m, Noting(all, mods, [], [], addErrors)) == log
  {
  }

  lemma NotingTried(log: Log, m: string, all: seq<Augment>, mods: set<string>, tried: seq<nat>, left: seq<nat>,
                    addErrors: bool, i: nat)
    requires i < |all|
    ensures Note(Note(log, m, Noting(all, mods, tried, left, addErrors)), m, Trying(mods, all[i]))
         == Note(log, m, Noting(all, mods, tried + [i], left, addErrors))
  {
    hide Note, Tried, Missed, Trying;
    TriedNext(all, mods, tried, i);
    NoteTwice(log, m, Noting(all, mods, tried, left, addErrors), Trying(mods, all[i]));
    assert Noting(all, mods, tried, left, addErrors) + Trying(mods, all[i])
        == Noting(all, mods, tried + [i], left, addErrors);
  }

  lemma NotingMissed(log: Log, m: string, all: seq<Augment>, mods: set<string>, tried: seq<nat>, left: seq<nat>,
                     addErrors: bool, i: nat)
    requires i < |all|
    ensures Note(Note(log, m, Noting(all, mods, tried, left, addErrors)), m,
                 if addErrors then multiset{NotFound(all[i].name)} else multiset{})
         == Note(log, m, Noting(all, mods, tried, left + [i], addErrors))
  {
    hide Note, Tried, Missed;
    MissedNext(all, left, i);
    var more := if addErrors then multiset{NotFound(all[i].name)} else multiset{};
    NoteTwice(log, m, Noting(all, mods, tried, left, addErrors), more);
    assert Noting(all, mods, tried, left, addErrors) + more == Noting(all, mods, tried, left + [i], addErrors);
  }

  /** The whole list: first what was tried, then what was left. */
  lemma NotingAll(log: Log, m: string, all: seq<Augment>, mods: set<string>, tried: seq<nat>, left: seq<nat>,
                  addErrors: bool)
    ensures Note(log, m, Noting(all, mods, tried, left, addErrors))
         == if addErrors then Note(Note(log, m, Tried(all, mods, tried)), m, Missed(all, left))
            else Note(log, m, Tried(all, mods, tried))
  {
    hide Note, Tried, Missed;
    NoteTwice(log, m, Tried(all, mods, tried), Missed(all, left));
    assert Tried(all, mods, tried) + multiset{} == Tried(all, mods, tried);
  }
}
