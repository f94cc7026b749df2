/** The augment loop of Process (pkg/yang/modules.go) over the entries of the modules. */
module Processing {
  import opened Trees
  import opened Wrappers
  import opened Choices
  import opened Paths
  import opened Augments
  import opened Confluence
  import opened Notes
  import opened Schedules
  import opened CasePaths
  import opened LateAugments
  import opened LateCases
  import opened Entries

  /** An augment statement of module `home`: the entry made from it and what its names mean there. */
  datatype Statement = Statement(
    home: string,
    name: string,
    imports: map<string, string>,
    namespace: string,
    entry: Entry)

  // ---------------------------------------------------------------- who is still waiting

  /** The list `w` of module `m` holds statements of that module that are not in the run, each once. */
  predicate Listed(homes: seq<string>, m: string, w: seq<nat>, run: seq<nat>) {
    && Once(w)
    && forall i :: i in w ==> i < |homes| && homes[i] == m && i !in run
  }

  /** Each statement was applied once, or waits in the list of its module once. */
  predicate Booked(homes: seq<string>, waiting: map<string, seq<nat>>, run: seq<nat>) {
    && Once(run) && (forall i :: i in run ==> i < |homes|)
    && (forall m :: m in waiting ==> Listed(homes, m, waiting[m], run))
    && (forall i: nat :: i < |homes| ==> homes[i] in waiting && (i in run || i in waiting[homes[i]]))
  }

  /** A statement moves from the list of its module to the run. */
  lemma Rebook(homes: seq<string>, waiting: map<string, seq<nat>>, run: seq<nat>, m: string,
               before: seq<nat>, i: nat, after: seq<nat>)
    requires m in waiting && waiting[m] == before + [i] + after && Booked(homes, waiting, run)
    ensures Booked(homes, waiting[m := before + after], run + [i])
  {
    assert Listed(homes, m, waiting[m], run);
    Dropped(before, i, after);
    var now := waiting[m := before + after];
    assert i in waiting[m];
    assert forall x :: x in run + [i] <==> x in run || x == i;
    forall n | n in now
      ensures Listed(homes, n, now[n], run + [i])
    {
      assert Listed(homes, n, waiting[n], run);
    }
  }

  lemma Pending(homes: seq<string>, waiting: map<string, seq<nat>>, run: seq<nat>)
    requires Booked(homes, waiting, run)
    ensures |run| <= |homes|
  {
    RunSize(run, |homes|);
  }

  class Modules {
    const table: seq<Statement>          // the augment statements of all modules
    const entries: map<string, Entry>    // the entry of each module
    const IgnoreModuleResolveErrors: bool
    var augments: map<string, seq<nat>>  // the statements of each module that were not applied yet

    ghost var owned: set<Entry>          // the entries of all modules
    ghost const lent: set<Entry>         // the entries of the bodies of the augments

    ghost function Homes(): seq<string> {
      seq(|table|, i requires 0 <= i < |table| => table[i].home)
    }

    /** The state before the loop: separate trees for the modules, apart from the bodies of the augments. */
    constructor (table: seq<Statement>, entries: map<string, Entry>, augments: map<string, seq<nat>>,
                 ignore: bool, ghost owned: set<Entry>, ghost lent: set<Entry>)
      requires owned !! lent
      requires forall m :: m in entries ==> Within(entries[m], owned) && entries[m].Parent == null
      requires forall m, n :: m in entries && n in entries && m != n ==> entries[m].Repr !! entries[n].Repr
      requires forall i :: 0 <= i < |table| ==> Within(table[i].entry, lent)
      ensures this.table == table && this.entries == entries && this.augments == augments
      ensures IgnoreModuleResolveErrors == ignore
      ensures Ready()
    {
      this.table, this.entries, this.augments, this.owned, this.lent := table, entries, augments, owned, lent;
      IgnoreModuleResolveErrors := ignore;
      new;
      assert Ready() by { assert forall e :: e in Bodies() ==> Within(e, lent); }
    }

    ghost function Bodies(): set<Entry> {
      set i | 0 <= i < |table| :: table[i].entry
    }

    /** The modules have separate trees, apart from the bodies of the augments. */
    ghost predicate Ready()
      reads this`owned, owned, lent
    {
      && owned !! lent
      && (forall m :: m in entries ==> Within(entries[m], owned) && entries[m].Parent == null)
      && (forall m, n :: m in entries && n in entries && m != n ==> entries[m].Repr !! entries[n].Repr)
      && (forall e :: e in Bodies() ==> Within(e, lent))
    }

    /** `e` is the root of a tree within `all`. */
    static ghost predicate Within(e: Entry, all: set<Entry>)
      reads all
    {
      e in all && e in e.Repr && e.Repr <= all && e.Valid()
    }

    /** The schema trees of the modules. */
    ghost function Schema(): Forest
      reads entries.Values`tree
    {
      map m | m in entries :: entries[m].tree
    }

    ghost function All(): (all: seq<Augments.Augment>)
      reads Bodies()
      ensures |all| == |table|
    {
      seq(|table|, i requires 0 <= i < |table| reads Bodies() =>
        var s := table[i]; Augments.Augment(s.home, s.name, s.imports, s.namespace, s.entry.tree))
    }

    /** What stays when the tree of module `m` changes. */
    lemma Others(m: string)
      requires Ready() && m in entries
      ensures var e := entries[m];
              && e.Valid() && e in e.Repr && e.Parent == null && e.Repr <= owned && e.tree == Schema()[m]
      ensures forall n :: n in entries && n != m ==>
                && entries[n].Valid() && entries[n].Parent == null
                && entries[n] in entries[n].Repr && entries[n].Repr <= owned && entries[n].Repr !! entries[m].Repr
      ensures forall n, o :: n in entries && o in entries && n != m && o != m && n != o ==>
                entries[n].Repr !! entries[o].Repr
      ensures forall e :: e in Bodies() ==> Within(e, lent) && e in lent
      ensures owned !! lent
    {
    }

    lemma Body(i: nat)
      requires Ready() && i < |table|
      ensures var e := table[i].entry;
              e in Bodies() && e.Valid() && e in e.Repr && e.Repr <= lent && e.tree == All()[i].body
    {
      assert table[i].entry in Bodies();
    }

    /** Merges the body of statement `i` into the node at `x`. */
    method Apply(i: nat, x: Place)
      requires Ready() && i < |table| && Exists(Schema(), x)
      requires Augments.Node(Schema(), x).hasDir || All()[i].body.Dir == map[]
      modifies this`owned, owned
      ensures Ready() && fresh(owned - old(owned)) && All() == old(All())
      ensures Schema() == Applied(old(Schema()), All()[i], x)
    {
      hide Ready, Within, Entry.Valid, MergedAt, Goal;
      var m := x.module_;
      var e := entries[m];
      Others(m);
      Body(i);
      table[i].entry.Fields();
      e.MergeAt(x.path, None, Some(table[i].namespace), table[i].entry);
      owned := owned + e.Repr;
      MakeReady(m);
    }

    lemma MakeReady(m: string)
      requires m in entries && owned !! lent
      requires var e := entries[m]; e.Valid() && e in e.Repr && e.Parent == null && e.Repr <= owned
      requires forall n :: n in entries && n != m ==>
                && entries[n].Valid() && entries[n].Parent == null
                && entries[n] in entries[n].Repr && entries[n].Repr <= owned && entries[n].Repr !! entries[m].Repr
      requires forall n, o :: n in entries && o in entries && n != m && o != m && n != o ==>
                 entries[n].Repr !! entries[o].Repr
      requires forall e :: e in Bodies() ==> Within(e, lent)
      ensures Ready()
    {
    }

    /** The errors that are kept of those noted. */
    ghost function Kept(log: Log): Log {
      if IgnoreModuleResolveErrors then map[] else log
    }

    /** The entries show the schema `g` with the errors noted. */
    ghost predicate Shows(g: Forest, log: Log)
      reads entries.Values`tree
    {
      Schema() == Noted(g, Kept(log))
    }

    /** Adds an error at the root of module `m`. */
    method Report(m: string, err: Error, ghost g: Forest, ghost log: Log)
      requires Ready() && m in entries && Shows(g, log) && !IgnoreModuleResolveErrors
      modifies owned
      ensures Ready() && All() == old(All()) && Shows(g, Note(log, m, multiset{err}))
    {
      hide Ready, Within, Entry.Valid, Noted, Note;
      Others(m);
      var e := entries[m];
      assert m in g && Schema().Keys == entries.Keys by { NotedKeys(g, log); }
      NotedMore(g, log, m, multiset{err});
      ghost var before := Schema();
      e.AddError(err);
      assert Schema() == before[m := WithErrors(before[m], multiset{err})];
      MakeReady(m);
    }

    lemma Shown(g: Forest, log: Log)
      requires Shows(g, log)
      ensures Schema() == if IgnoreModuleResolveErrors then g else Noted(g, log)
    {
      NotedNothing(g);
    }

    lemma NotedKeys(g: Forest, log: Log)
      requires Shows(g, log)
      ensures g.Keys == entries.Keys
    {
      assert Noted(g, Kept(log)).Keys == g.Keys;
    }

    /** Find, for the absolute name of statement `i`; a prefix that leads to no module is reported. */
    method FindTarget(i: nat, ghost all: seq<Augments.Augment>, ghost g: Forest, ghost log: Log)
      returns (r: Option<Place>)
      requires Ready() && i < |table| && All() == all && Absolute(all[i]) && table[i].home in entries && Shows(g, log)
      modifies owned
      ensures Ready() && All() == all && r == Target(g, all[i])
      ensures Shows(g, Note(log, table[i].home, Trying(entries.Keys, all[i])))
    {
      hide Ready, Within, Entry.Valid, Resolve, PartsOf, Noted, Shows, Schema, All, Lost;
      var s := table[i];
      var parts := PartsOf(s.name);
      NotedKeys(g, log);
      LookedUp(i, all);
      NothingNoted(log, s.home);
      var prefix := if parts == [] then "" else PrefixOf(parts[0]);
      if prefix != "" && !(prefix in s.imports && s.imports[prefix] in entries) {
        LostHasNone(g, all[i]);
        if IgnoreModuleResolveErrors {
          SameKept(g, log, Note(log, s.home, Trying(entries.Keys, all[i])));
        } else {
          Report(s.home, UnknownPrefix(s.name), g, log);
        }
        return None;
      }
      var m := if prefix == "" then s.home else s.imports[prefix];
      Others(m);
      ShownTarget(i, all, g, log, m);
      var root := entries[m];
      root.AtSelf();
      var e, q := root.Find(parts, [], root);
      return if e == null then None else Some(Place(m, q));
    }

    lemma LookedUp(i: nat, all: seq<Augments.Augment>)
      requires i < |table| && All() == all
      ensures |all| == |table|
      ensures var s, a := table[i], all[i];
              && a.home == s.home && a.name == s.name && a.imports == s.imports && Parts(a) == PartsOf(s.name)
      ensures var a := all[i];
              var prefix := if Parts(a) == [] then "" else PrefixOf(Parts(a)[0]);
              Lost(entries.Keys, a) <==> prefix != "" && !(prefix in a.imports && a.imports[prefix] in entries)
    {
      hide PartsOf, PrefixOf;
      assert all[i] == All()[i];
    }

    lemma NothingNoted(log: Log, m: string)
      ensures Note(log, m, multiset{}) == log
    {
    }

    lemma SameKept(g: Forest, log: Log, more: Log)
      requires Shows(g, log) && IgnoreModuleResolveErrors
      ensures Shows(g, more)
    {
    }

    /** The target is looked up in module `m`. */
    lemma ShownTarget(i: nat, all: seq<Augments.Augment>, g: Forest, log: Log, m: string)
      requires i < |all| && Shows(g, log) && m in entries && !Lost(entries.Keys, all[i])
      requires var prefix := if Parts(all[i]) == [] then "" else PrefixOf(Parts(all[i])[0]);
               m == if prefix == "" then all[i].home else if prefix in all[i].imports then all[i].imports[prefix] else m
      ensures var p := Resolve(entries[m].tree, [], Parts(all[i]));
              Target(g, all[i]) == if p == None then None else Some(Place(m, p.value))
    {
      hide Resolve, PartsOf, PrefixOf, Noted;
      NotedTarget(g, Kept(log), all[i]);
      assert entries[m].tree == Schema()[m];
    }

    /** The state `st` of the loop over `f`, where the statements `base` were applied before. */
    ghost predicate Underway(f: Forest, base: seq<nat>, st: State)
      reads this`owned, this`augments, owned, lent, entries.Values, Bodies()
    {
      && Ready() && st.waiting == augments && Booked(Homes(), augments, base + st.run)
      && After(f, All(), st.run) == Some(st.schema) && Shows(st.schema, st.log)
      && Roomy(f, All()) && (forall i :: 0 <= i < |table| ==> Absolute(All()[i]))
      && augments.Keys <= entries.Keys
    }

    /**
     Tries each waiting augment of module `m` in turn. Those with a target are
     merged into it, and the others stay on the list; with `addErrors` each of
     these is reported.
     */
    method Augment(m: string, addErrors: bool, ghost f: Forest, ghost base: seq<nat>, ghost st: State)
      returns (processed: nat, skipped: nat, ghost next: State)
      requires Underway(f, base, st) && m in augments
      modifies this`owned, this`augments, owned
      ensures Underway(f, base, next) && fresh(owned - old(owned)) && All() == old(All())
      ensures next == if addErrors then LastTurn(st, All(), m) else Turn(st, All(), m)
      ensures |next.run| == |st.run| + processed && skipped == |augments[m]|
    {
      hide Ready, Booked, After, Roomy, Applied, Target, Absolute, Schema, All, Homes, Schedules.Sweep, Shows,
           Noted, Note, Tried, Missed;
      var unapplied: seq<nat>;
      ghost var applied: seq<nat>;
      ghost var g: Forest;
      ghost var all := All();
      processed, skipped, unapplied, applied, g := Sweep(m, addErrors, f, all, base, st);
      ghost var waiting := augments[m];
      assert forall e :: e in Bodies() ==> e as object != this;
      augments := augments[m := unapplied];
      NotingAll(st.log, m, all, st.schema.Keys, waiting, unapplied, addErrors);
      next := State(g, st.run + applied, augments, st.mods,
                    Note(st.log, m, Noting(all, st.schema.Keys, waiting, unapplied, addErrors)));
      assert base + (st.run + applied) == base + st.run + applied;
    }

    /** The loop over the waiting augments of module `m`; `unapplied` are those without a target. */
    method Sweep(m: string, addErrors: bool, ghost f: Forest, ghost all: seq<Augments.Augment>,
                 ghost base: seq<nat>, ghost st: State)
      returns (processed: nat, skipped: nat, unapplied: seq<nat>, ghost applied: seq<nat>, ghost g: Forest)
      requires Underway(f, base, st) && m in augments && All() == all
      modifies this`owned, owned
      ensures Ready() && fresh(owned - old(owned)) && All() == all
      ensures Booked(Homes(), augments[m := unapplied], base + st.run + applied)
      ensures After(f, all, st.run + applied) == Some(g)
      ensures Schedules.Sweep(st.schema, all, augments[m]) == Swept(g, applied, unapplied)
      ensures Shows(g, Note(st.log, m, Noting(all, st.schema.Keys, augments[m], unapplied, addErrors)))
      ensures |applied| == processed && |unapplied| == skipped
    {
      hide Ready, Booked, After, Roomy, Applied, Target, Absolute, Schema, All, Homes, Bodies, Schedules.Sweep, Shows,
           Noted, Note, Tried, Missed, Noting, Lost, Preceded;
      var waiting := augments[m];
      processed, skipped, unapplied, applied, g := 0, 0, [], [], st.schema;
      ghost var whole := Schedules.Sweep(g, all, waiting);
      ghost var mods, run := st.schema.Keys, base + st.run;
      SweepStarts(m, waiting, run, st);
      NotingNothing(st.log, m, all, mods, addErrors);
      NotedKeys(st.schema, st.log);
      NothingBefore(whole);
      for j := 0 to |waiting|
        invariant Ready() && fresh(owned - old(owned)) && All() == all
        invariant Booked(Homes(), augments[m := unapplied + waiting[j..]], run + applied)
        invariant After(f, all, st.run + applied) == Some(g) && Roomy(f, all)
        invariant whole == Preceded(applied, unapplied, Schedules.Sweep(g, all, waiting[j..]))
        invariant Shows(g, Note(st.log, m, Noting(all, mods, waiting[..j], unapplied, addErrors)))
        invariant |applied| == processed && |unapplied| == skipped
      {
        var i := waiting[j];
        ghost var rest := waiting[j + 1..];
        NextOf(waiting, j, unapplied);
        Listing(augments[m := unapplied + waiting[j..]], run + applied, m, i);
        SweepStep(g, all, waiting[j..]);
        ghost var log := Note(st.log, m, Noting(all, mods, waiting[..j], unapplied, addErrors));
        var found := TryOne(m, unapplied, i, rest, addErrors, f, all, run + applied, st.run + applied, g, log);
        NotingTried(st.log, m, all, mods, waiting[..j], unapplied, addErrors, i);
        if found {
          ghost var h := Applied(g, all[i], Target(g, all[i]).value);
          PrecededByApplied(applied, unapplied, i, Schedules.Sweep(h, all, rest));
          assert run + applied + [i] == run + (applied + [i]) && st.run + applied + [i] == st.run + (applied + [i]);
          g := h;
          processed := processed + 1;
          applied := applied + [i];
        } else {
          PrecededByLeft(applied, unapplied, i, Schedules.Sweep(g, all, rest));
          NotingMissed(st.log, m, all, mods, waiting[..j + 1], unapplied, addErrors, i);
          skipped := skipped + 1;
          unapplied := unapplied + [i];
        }
      }
      assert waiting[|waiting|..] == [] && unapplied + [] == unapplied && waiting[..|waiting|] == waiting;
      SweepNone(g, all);
      NothingAfter(applied, unapplied, g);
    }

    /** Tries one augment: it is merged into its target, or stays and may be reported. */
    method TryOne(m: string, ghost before: seq<nat>, i: nat, ghost after: seq<nat>, addErrors: bool,
                  ghost f: Forest, ghost all: seq<Augments.Augment>, ghost done: seq<nat>, ghost run: seq<nat>,
                  ghost g: Forest, ghost log: Log)
      returns (found: bool)
      requires Ready() && m in augments && m in entries && i < |table| && table[i].home == m && All() == all
      requires Absolute(all[i]) && Shows(g, log) && Booked(Homes(), augments[m := before + [i] + after], done)
      requires After(f, all, run) == Some(g) && Roomy(f, all)
      modifies this`owned, owned
      ensures Ready() && fresh(owned - old(owned)) && All() == all && i < |all|
      ensures found <==> Target(g, all[i]).Some?
      ensures found ==>
                var h := Applied(g, all[i], Target(g, all[i]).value);
                && Booked(Homes(), augments[m := before + after], done + [i]) && After(f, all, run + [i]) == Some(h)
                && Shows(h, Note(log, m, Trying(entries.Keys, all[i])))
      ensures !found ==>
                Shows(g, Note(Note(log, m, Trying(entries.Keys, all[i])), m,
                              if addErrors then multiset{NotFound(all[i].name)} else multiset{}))
    {
      hide Ready, Booked, After, Roomy, Applied, Target, Absolute, Schema, All, Homes, Shows, Noted, Note, Trying;
      LookedUp(i, all);
      var x := FindTarget(i, all, g, log);
      ghost var now := Note(log, m, Trying(entries.Keys, all[i]));
      if x == None {
        NotFoundHere(m, i, addErrors, g, now);
        return false;
      }
      ApplyNext(m, before, i, after, x.value, f, all, done, run, g, now);
      return true;
    }

    lemma SweepStarts(m: string, waiting: seq<nat>, run: seq<nat>, st: State)
      requires m in augments && augments[m] == waiting
      ensures [] + waiting[0..] == waiting && waiting[..0] == [] && augments[m := waiting] == augments
      ensures run + [] == run && st.run + [] == st.run
    {
    }

    /** With `addErrors` an augment without a target is reported. */
    method NotFoundHere(m: string, i: nat, addErrors: bool, ghost g: Forest, ghost log: Log)
      requires Ready() && m in entries && Shows(g, log) && i < |table|
      modifies owned
      ensures Ready() && All() == old(All())
      ensures Shows(g, Note(log, m, if addErrors then multiset{NotFound(table[i].name)} else multiset{}))
    {
      hide Ready, Shows, Note, All;
      NothingNoted(log, m);
      if addErrors {
        if IgnoreModuleResolveErrors {
          SameKept(g, log, Note(log, m, multiset{NotFound(table[i].name)}));
        } else {
          Report(m, NotFound(table[i].name), g, log);
        }
      }
    }

    /** One augment with a target leaves the list `before + [i] + after` of its module. */
    method ApplyNext(m: string, ghost before: seq<nat>, i: nat, ghost after: seq<nat>, x: Place,
                     ghost f: Forest, ghost all: seq<Augments.Augment>, ghost done: seq<nat>, ghost run: seq<nat>,
                     ghost g: Forest, ghost log: Log)
      requires Ready() && m in augments && i < |table| && All() == all && Shows(g, log)
      requires Booked(Homes(), augments[m := before + [i] + after], done)
      requires After(f, all, run) == Some(g) && Roomy(f, all) && Target(g, all[i]) == Some(x)
      modifies this`owned, owned
      ensures Ready() && fresh(owned - old(owned)) && All() == all
      ensures Booked(Homes(), augments[m := before + after], done + [i])
      ensures After(f, all, run + [i]) == Some(Applied(g, all[i], x)) && Shows(Applied(g, all[i], x), log)
    {
      hide Ready, Booked, After, Roomy, Applied, Target, Listed, Noted;
      RunRoomy(f, all, run, i);
      AfterOneMore(f, all, run, g, i);
      var waiting := augments[m := before + [i] + after];
      Rebook(Homes(), waiting, done, m, before, i, after);
      assert waiting[m := before + after] == augments[m := before + after];
      NotedNodes(g, Kept(log), x);
      NotedApplied(g, Kept(log), all[i], x);
      Apply(i, x);
    }

    lemma Listing(waiting: map<string, seq<nat>>, run: seq<nat>, m: string, i: nat)
      requires Booked(Homes(), waiting, run) && m in waiting && i in waiting[m]
      ensures i < |table| && table[i].home == m
    {
      assert Listed(Homes(), m, waiting[m], run);
      assert Homes()[i] == table[i].home;
    }

    /**
     The augment loop: passes over the modules in the order `order`, dropping a
     module when it has nothing left, until a pass applies nothing. The number
     of augments left falls with every other pass.
     */
    method ApplyAugments(order: seq<string>) returns (mods: seq<string>, ghost st: State)
      requires Underway(Schema(), [], Start(order)) && Covered(augments, order)
      modifies this`owned, this`augments, owned
      ensures Underway(old(Schema()), [], st) && Covered(augments, mods)
      ensures fresh(owned - old(owned)) && All() == old(All())
      ensures st == Loop(old(Start(order)), All()) && mods == st.mods
      ensures Complete(old(Schema()), All(), st.run)
    {
      hide Underway, Covered, Stuck, Complete, Ready, Schedules.Pass, Schema, All;
      ghost var f, all := Schema(), All();
      mods := order;
      st := Start(order);
      ghost var whole := Loop(st, all);
      while |mods| > 0
        invariant Underway(f, [], st) && Covered(augments, mods) && fresh(owned - old(owned)) && All() == all
        invariant whole == Loop(st, all) && mods == st.mods
        decreases |table| - |st.run|
      {
        ghost var before := st;
        Bounded(f, st);
        var processed: nat;
        mods, processed, st := Pass(mods, f, st);
        Bounded(f, st);
        if processed == 0 {
          break;
        }
        LoopOnce(before, all, st);
      }
      if |mods| == 0 {
        NothingStuck(st.schema, all, augments, mods);
        LoopEnd(st, all);
      }
      Finished(f, st, mods);
    }

    /** The state before the loop. */
    ghost function Start(order: seq<string>): State
      reads this`augments, entries.Values`tree
    {
      State(Schema(), [], augments, order, map[])
    }

    /** One pass over `mods`; a module with nothing left gives its place to the last one. */
    method Pass(before: seq<string>, ghost f: Forest, ghost start: State)
      returns (mods: seq<string>, processed: nat, ghost st: State)
      requires Underway(f, [], start) && start.mods == before && Covered(augments, before)
      modifies this`owned, this`augments, owned
      ensures Underway(f, [], st) && Covered(augments, mods) && fresh(owned - old(owned)) && All() == old(All())
      ensures st == Schedules.Pass(start, All(), 0) && mods == st.mods
      ensures |st.run| == |start.run| + processed
      ensures processed == 0 ==> Stuck(st.schema, All(), augments, mods)
    {
      hide *;
      ghost var all := All();
      mods, processed, st := before, 0, start;
      var i := 0;
      ghost var whole := Schedules.Pass(st, all, 0);
      NothingStuck(st.schema, all, augments, mods[..0]);
      while i < |mods|
        invariant i <= |mods| && |st.run| == |start.run| + processed && mods == st.mods
        invariant Underway(f, [], st) && Covered(augments, mods) && fresh(owned - old(owned)) && All() == all
        invariant whole == Schedules.Pass(st, all, i)
        invariant processed == 0 ==> Stuck(st.schema, all, augments, mods[..i])
        decreases |mods| - i
      {
        var m := mods[i];
        ghost var was := st;
        Waiting(f, [], st);
        CoveredHas(augments, mods, m);
        PassStep(st, all, i);
        TurnShape(st, all, m);
        var p, s;
        p, s, st := Augment(m, false, f, [], st);
        Waiting(f, [], st);
        CoveredAfter(was.waiting, augments, mods, m);
        if p == 0 && processed == 0 {
          TurnInVain(was, all, m);
          StuckOneMore(st.schema, all, augments, mods[..i], m);
        }
        assert mods[..i] + [m] == mods[..i + 1];
        if s == 0 {
          var last := mods[|mods| - 1];
          CoveredWithout(augments, mods, i);
          mods := mods[i := last][..|mods| - 1];
          OtherMods(f, [], st, mods);
          st := st.(mods := mods);
        } else {
          i := i + 1;
        }
        processed := processed + p;
      }
      assert mods[..i] == mods;
      PassEnd(st, all, i);
    }

    lemma OtherMods(f: Forest, base: seq<nat>, st: State, mods: seq<string>)
      requires Underway(f, base, st)
      ensures Underway(f, base, st.(mods := mods))
    {
    }

    lemma Waiting(f: Forest, base: seq<nat>, st: State)
      requires Underway(f, base, st)
      ensures st.waiting == augments && Shows(st.schema, st.log) && augments.Keys <= entries.Keys
    {
    }

    /** Puts the missing cases into every module; a module may be listed under several names. */
    method FixChoices(order: seq<string>)
      requires Ready() && forall m :: m in order ==> m in entries
      modifies this`owned, owned
      ensures Ready() && fresh(owned - old(owned)) && All() == old(All())
      ensures Schema() == FixedIn(old(Schema()), order)
    {
      hide Ready, Schema, All, Fixed, FixedIn;
      ghost var f := Schema();
      FixedInNone(f);
      for k := 0 to |order|
        invariant Ready() && fresh(owned - old(owned)) && All() == old(All())
        invariant Schema() == FixedIn(f, order[..k])
      {
        assert order[..k + 1] == order[..k] + [order[k]];
        Keys();
        FixedInOneMore(f, order[..k], order[k]);
        FixModule(order[k]);
      }
      assert order[..|order|] == order;
    }

    lemma Keys()
      ensures Schema().Keys == entries.Keys
    {
    }

    method FixModule(m: string)
      requires Ready() && m in entries && m in Schema()
      modifies this`owned, owned
      ensures Ready() && fresh(owned - old(owned)) && All() == old(All())
      ensures Schema() == old(Schema())[m := Fixed(old(Schema())[m])]
    {
      hide Ready, Within, Entry.Valid, Fixed;
      var e := entries[m];
      Others(m);
      e.FixChoice(e.tree);
      owned := owned + e.Repr;
      MakeReady(m);
    }

    /**
     Process from the augments on: the loop, the missing cases, and one more
     turn for each module that still has augments, which reports what it leaves.
     `st` is the state after the loop and `end` the one at the end. An augment
     whose name is spelled with the cases is applied in the end.
     */
    method Process(order: seq<string>) returns (ghost st: State, ghost end: State)
      requires Underway(Schema(), [], Start(order)) && Covered(augments, order) && Sane(order)
      modifies this`owned, this`augments, owned
      ensures Ready() && All() == old(All())
      ensures st == Loop(old(Start(order)), All()) && Complete(old(Schema()), All(), st.run)
      ensures end == Retry(Repaired(st, order), All(), st.mods)
      ensures Schema() == if IgnoreModuleResolveErrors then end.schema else Noted(end.schema, end.log)
      ensures forall i: nat :: i < |All()| && i !in st.run && SpelledName(st.schema, All()[i]) ==> i in end.run
    {
      hide Ready, Underway, Covered, Complete, All, Schema, Loop, SpelledName, Shows, Retry, Repaired;
      var mods;
      mods, st := FirstHalf(order);
      ghost var again := Repaired(st, order);
      end := LastLoop(mods, again.schema, st.run, again);
      Halted(again.schema, st.run, end);
      Shown(end.schema, end.log);
    }

    /**
     Every module has its place in the order and a root that is no choice; the
     targets that appear with the cases can have children where they get some.
     */
    ghost predicate Sane(order: seq<string>)
      reads this`augments, entries.Values`tree, Bodies()
    {
      && (forall m :: m in entries <==> m in order)
      && (forall m :: m in entries ==> entries[m].tree.info.Kind != Choice)
      && Roomy(FixedIn(Loop(Start(order), All()).schema, order), All())
    }

    lemma SaneMeans(order: seq<string>)
      requires Sane(order)
      ensures forall m :: m in entries <==> m in order
      ensures forall m :: m in Schema() ==> Schema()[m].info.Kind != Choice
      ensures Roomy(FixedIn(Loop(Start(order), All()).schema, order), All())
    {
      hide FixedIn, Loop;
    }

    /** The loop and the cases. */
    method FirstHalf(order: seq<string>) returns (mods: seq<string>, ghost st: State)
      requires Underway(Schema(), [], Start(order)) && Covered(augments, order) && Sane(order)
      modifies this`owned, this`augments, owned
      ensures fresh(owned - old(owned)) && All() == old(All())
      ensures st == Loop(old(Start(order)), All()) && Complete(old(Schema()), All(), st.run) && mods == st.mods
      ensures Underway(Repaired(st, order).schema, st.run, Repaired(st, order))
      ensures forall m :: m in mods ==> m in augments
      ensures forall i: nat :: i < |All()| && i !in st.run && SpelledName(st.schema, All()[i]) ==>
                i in Retry(Repaired(st, order), All(), mods).run
    {
      hide Ready, Underway, Covered, Complete, All, Schema, Loop, SpelledName, FixedIn, Roomy, Noted, Shows,
           Booked, Retry, Sane, Repaired;
      ghost var f, all := Schema(), All();
      SaneMeans(order);
      mods, st := ApplyAugments(order);
      Halfway(f, st);
      Sound(f, st);
      NotedFixed(st.schema, Kept(st.log), order);
      FixChoices(order);
      Restart(st, order);
      CoveredHasAll(augments, mods);
      RetriedAll(f, st, order, mods);
    }

    /** What is known after the loop. */
    lemma Halfway(f: Forest, st: State)
      requires Underway(f, [], st)
      ensures Ready() && st.waiting == augments && Booked(Homes(), augments, st.run)
      ensures After(f, All(), st.run) == Some(st.schema) && Schema() == Noted(st.schema, Kept(st.log))
      ensures (forall i :: 0 <= i < |table| ==> Absolute(All()[i])) && augments.Keys <= entries.Keys
      ensures st.schema.Keys == entries.Keys
    {
      assert [] + st.run == st.run;
      NotedKeys(st.schema, st.log);
    }

    lemma Halted(f: Forest, base: seq<nat>, st: State)
      requires Underway(f, base, st)
      ensures Ready() && Shows(st.schema, st.log)
    {
    }

    /** The roots stay what they were, and the trees filed by names. */
    lemma Sound(f: Forest, st: State)
      requires Ready() && After(f, All(), st.run) == Some(st.schema) && Schema() == Noted(st.schema, Kept(st.log))
      requires forall m :: m in f ==> f[m].info.Kind != Choice
      ensures forall m :: m in st.schema ==> st.schema[m].info.Kind != Choice
      ensures AllKeyed(st.schema)
    {
      hide Ready, After, Noted, AllKeyed, Explained;
      AreKeyed();
      NotedKeyed(st.schema, Kept(st.log));
      forall m | m in st.schema
        ensures st.schema[m].info.Kind != Choice
      {
        RootStays(f, All(), st.run, m);
      }
    }

    /** The last loop starts. */
    lemma Restart(st: State, order: seq<string>)
      requires Ready() && st.waiting == augments && Booked(Homes(), augments, st.run)
      requires Schema() == Noted(FixedIn(st.schema, order), Kept(st.log)) && Roomy(FixedIn(st.schema, order), All())
      requires (forall i :: 0 <= i < |table| ==> Absolute(All()[i])) && augments.Keys <= entries.Keys
      ensures Underway(Repaired(st, order).schema, st.run, Repaired(st, order))
    {
      hide Ready, Booked, Noted, Roomy, FixedIn;
      assert st.run + [] == st.run;
      AfterNothing(FixedIn(st.schema, order), All());
    }

    /** Each module of `mods` has one more turn. */
    method LastLoop(mods: seq<string>, ghost h: Forest, ghost base: seq<nat>, ghost start: State)
      returns (ghost end: State)
      requires Underway(h, base, start) && forall m :: m in mods ==> m in augments
      modifies this`owned, this`augments, owned
      ensures Underway(h, base, end) && All() == old(All()) && end == Retry(start, All(), mods)
    {
      hide Underway, All, Schedules.Sweep, LastTurn;
      ghost var all := All();
      end := start;
      ghost var whole := Retry(start, all, mods);
      assert mods[0..] == mods;
      for k := 0 to |mods|
        invariant Underway(h, base, end) && fresh(owned - old(owned)) && All() == all
        invariant (forall m :: m in mods ==> m in augments) && whole == Retry(end, all, mods[k..])
      {
        Waiting(h, base, end);
        assert mods[k..] == [mods[k]] + mods[k + 1..];
        ghost var was := end;
        var _, _, next := Augment(mods[k], true, h, base, end);
        end := next;
        Waiting(h, base, end);
        LastTurnKeys(was, all, mods[k]);
      }
      assert mods[|mods|..] == [];
    }

    lemma RetriedAll(f: Forest, st: State, order: seq<string>, mods: seq<string>)
      requires Booked(Homes(), st.waiting, st.run) && Covered(st.waiting, mods)
      requires AllKeyed(st.schema) && forall m :: m in st.schema ==> m in order
      ensures forall i: nat :: i < |All()| && i !in st.run && SpelledName(st.schema, All()[i]) ==>
                i in Retry(Repaired(st, order), All(), mods).run
    {
      hide SpelledName, Retry, AllKeyed, Covered, Booked, All;
      forall i: nat | i < |table| && i !in st.run && SpelledName(st.schema, All()[i])
        ensures i in Retry(Repaired(st, order), All(), mods).run
      {
        Retried(f, st, order, mods, i);
      }
    }

    /** An augment left by the loop, whose name is spelled with the cases. */
    lemma Retried(f: Forest, st: State, order: seq<string>, mods: seq<string>, i: nat)
      requires i < |table| && i !in st.run && SpelledName(st.schema, All()[i])
      requires Booked(Homes(), st.waiting, st.run) && Covered(st.waiting, mods)
      requires AllKeyed(st.schema) && forall m :: m in st.schema ==> m in order
      ensures i in Retry(Repaired(st, order), All(), mods).run
    {
      hide SpelledName, FixedIn, Target, Retry, AllKeyed;
      TargetAfterwards(st.schema, order, All()[i]);
      var m := Homes()[i];
      assert m in st.waiting && i in st.waiting[m];
      assert m in mods;
      RetryApplies(Repaired(st, order), All(), mods, m, i);
    }

    lemma AreKeyed()
      requires Ready()
      ensures AllKeyed(Schema())
    {
      hide Entry.Valid, Keyed;
      forall m | m in entries
        ensures Keyed(entries[m].tree)
      {
        Others(m);
        entries[m].TreeIsKeyed();
      }
    }

    lemma Bounded(f: Forest, st: State)
      requires Underway(f, [], st)
      ensures |st.run| <= |table| == |All()|
    {
      assert [] + st.run == st.run;
      Pending(Homes(), augments, st.run);
    }

    /** When no module can go on, the run is complete. */
    lemma Finished(f: Forest, st: State, mods: seq<string>)
      requires Underway(f, [], st) && Covered(augments, mods) && Stuck(st.schema, All(), augments, mods)
      ensures Complete(f, All(), st.run)
    {
      hide Ready, After, Roomy, Target;
      assert [] + st.run == st.run;
      forall i: nat | i < |table| && i !in st.run
        ensures Target(st.schema, All()[i]) == None
      {
        var m := Homes()[i];
        assert m in augments && i in augments[m];
        assert m in mods;
      }
    }
  }

  // ---------------------------------------------------------------- a sweep under way

  /** A sweep of which `applied` and `left` came before `r`. */
  ghost function Preceded(applied: seq<nat>, left: seq<nat>, r: Swept): Swept {
    Swept(r.schema, applied + r.applied, left + r.left)
  }

  lemma NothingBefore(r: Swept)
    ensures Preceded([], [], r) == r
  {
    assert [] + r.applied == r.applied && [] + r.left == r.left;
  }

  lemma NothingAfter(applied: seq<nat>, left: seq<nat>, g: Forest)
    ensures Preceded(applied, left, Swept(g, [], [])) == Swept(g, applied, left)
  {
    assert applied + [] == applied && left + [] == left;
  }

  lemma NextOf(waiting: seq<nat>, j: nat, left: seq<nat>)
    requires j < |waiting|
    ensures waiting[j..] == [waiting[j]] + waiting[j + 1..] && waiting[..j + 1] == waiting[..j] + [waiting[j]]
    ensures left + waiting[j..] == left + [waiting[j]] + waiting[j + 1..]
  {
  }

  lemma PrecededByLeft(applied: seq<nat>, left: seq<nat>, i: nat, r: Swept)
    ensures Preceded(applied, left, r.(left := [i] + r.left)) == Preceded(applied, left + [i], r)
  {
    assert left + ([i] + r.left) == left + [i] + r.left;
  }

  lemma PrecededByApplied(applied: seq<nat>, left: seq<nat>, i: nat, r: Swept)
    ensures Preceded(applied, left, r.(applied := [i] + r.applied)) == Preceded(applied + [i], left, r)
  {
    assert applied + ([i] + r.applied) == applied + [i] + r.applied;
  }

  // ---------------------------------------------------------------- cases everywhere

  lemma FixedInNone(f: Forest)
    ensures FixedIn(f, []) == f
  {
  }

  lemma FixedInOneMore(f: Forest, order: seq<string>, m: string)
    requires m in FixedIn(f, order)
    ensures FixedIn(f, order + [m]) == FixedIn(f, order)[m := Fixed(FixedIn(f, order)[m])]
  {
    hide Fixed;
    FixedTwice(f[m]);
  }

  lemma FixedInAll(f: Forest, order: seq<string>)
    requires forall m :: m in f ==> m in order
    ensures forall m :: m in FixedIn(f, order) ==> OnlyCases(FixedIn(f, order)[m])
  {
    hide Fixed, OnlyCases;
    forall m | m in f { FixedHasOnlyCases(f[m]); }
  }

  // ---------------------------------------------------------------- the modules of a pass

  /** Every module with augments left is among `mods`. */
  ghost predicate Covered(waiting: map<string, seq<nat>>, mods: seq<string>) {
    && (forall m :: m in mods ==> m in waiting)
    && (forall m :: m in waiting && waiting[m] != [] ==> m in mods)
  }

  /** None of the augments left to `mods` has a target. */
  ghost predicate Stuck(f: Forest, all: seq<Augment>, waiting: map<string, seq<nat>>, mods: seq<string>) {
    forall m, i :: m in mods && m in waiting && i in waiting[m] && i < |all| ==> Target(f, all[i]) == None
  }

  lemma NothingStuck(f: Forest, all: seq<Augment>, waiting: map<string, seq<nat>>, mods: seq<string>)
    requires mods == []
    ensures Stuck(f, all, waiting, mods)
  {
  }

  lemma StuckOneMore(f: Forest, all: seq<Augment>, waiting: map<string, seq<nat>>, mods: seq<string>, m: string)
    requires Stuck(f, all, waiting, mods)
    requires m in waiting && forall i :: i in waiting[m] && i < |all| ==> Target(f, all[i]) == None
    ensures Stuck(f, all, waiting, mods + [m])
  {
    hide Target;
  }

  lemma CoveredHasAll(waiting: map<string, seq<nat>>, mods: seq<string>)
    requires Covered(waiting, mods)
    ensures forall m :: m in mods ==> m in waiting
  {
  }

  lemma LastTurnKeys(st: State, all: seq<Augment>, m: string)
    requires m in st.waiting
    ensures LastTurn(st, all, m).waiting.Keys == st.waiting.Keys
  {
  }

  lemma RootStays(f: Forest, all: seq<Augment>, run: seq<nat>, m: string)
    requires After(f, all, run).Some? && m in After(f, all, run).value
    ensures m in f && After(f, all, run).value[m].info == f[m].info
  {
    hide After;
    RunNodes(f, all, run, Place(m, []));
  }

  lemma CoveredHas(waiting: map<string, seq<nat>>, mods: seq<string>, m: string)
    requires Covered(waiting, mods) && m in mods
    ensures m in waiting
  {
  }

  lemma CoveredAfter(waiting: map<string, seq<nat>>, now: map<string, seq<nat>>, mods: seq<string>, m: string)
    requires Covered(waiting, mods) && m in mods
    requires now.Keys == waiting.Keys && forall n :: n in now && n != m ==> now[n] == waiting[n]
    ensures Covered(now, mods)
  {
  }

  /** Swapping a module that has nothing left for the last one and cutting the list loses no other. */
  lemma CoveredWithout(waiting: map<string, seq<nat>>, mods: seq<string>, i: nat)
    requires Covered(waiting, mods) && i < |mods| && mods[i] in waiting && waiting[mods[i]] == []
    ensures var rest := mods[i := mods[|mods| - 1]][..|mods| - 1];
            Covered(waiting, rest) && rest[..i] == mods[..i] && rest == Without(mods, i)
  {
    var n := |mods| - 1;
    var rest := mods[i := mods[n]][..n];
    forall m | m in waiting && waiting[m] != []
      ensures m in rest
    {
      var k :| 0 <= k < |mods| && mods[k] == m;
      assert k < n ==> rest[k] == m;
      assert k == n ==> rest[i] == m;
    }
    assert forall m :: m in rest ==> m in mods[i := mods[n]];
  }
}
