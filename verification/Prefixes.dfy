/**
 Which augments of a module are reported for a prefix that leads nowhere
 (Entry.Find and Entry.Augment of pkg/yang/entry.go).
 */
module Prefixes {
  import opened Wrappers
  import opened Trees
  import opened Paths
  import opened Augments
  import opened Notes
  import opened Schedules
  import opened LateReports
  import opened Outcomes

  /** The name starts at none of the modules `mods`. */
  predicate Nowhere(mods: set<string>, a: Augment) {
    Start(a) == None || Start(a).value !in mods
  }

  /** That is when looking for the target notes an error. */
  lemma LostIsNowhere(mods: set<string>, a: Augment)
    requires a.home in mods
    ensures Lost(mods, a) <==> Nowhere(mods, a)
  {
    hide PrefixOf, PartsOf;
  }

  /** The list has an augment that would be reported so. */
  ghost predicate Wants(all: seq<Augment>, mods: set<string>, list: seq<nat>, e: Error) {
    exists i :: i in list && i < |all| && Lost(mods, all[i]) && e == UnknownPrefix(all[i].name)
  }

  lemma {:induction false} TriedIs(all: seq<Augment>, mods: set<string>, list: seq<nat>, e: Error)
    ensures e in Tried(all, mods, list) <==> Wants(all, mods, list, e)
    decreases |list|
  {
    hide Lost;
    if list != [] {
      var init, i := list[..|list| - 1], list[|list| - 1];
      TriedIs(all, mods, init, e);
      assert list == init + [i];
      assert forall k :: k in list <==> k in init || k == i;
    }
  }

  /** A sweep leaves those in the list. */
  lemma {:induction false} SweepLeaves(g: Forest, all: seq<Augment>, list: seq<nat>, i: nat)
    ensures i in Sweep(g, all, list).left ==> i in list
    ensures i in list && i < |all| && Lost(g.Keys, all[i]) ==> i in Sweep(g, all, list).left
    decreases |list|
  {
    hide Lost, Target, Applied;
    if list != [] {
      var j := list[0];
      assert list == [j] + list[1..];
      var x := if j < |all| then Target(g, all[j]) else None;
      if x.Some? {
        var h := Applied(g, all[j], x.value);
        AppliedKeys(g, all[j], x.value);
        SweepLeaves(h, all, list[1..], i);
        if Lost(g.Keys, all[j]) { LostHasNone(g, all[j]); }
      } else {
        SweepLeaves(g, all, list[1..], i);
      }
    }
  }

  lemma AppliedKeys(f: Forest, a: Augment, x: Place)
    requires Exists(f, x)
    ensures Applied(f, a, x).Keys == f.Keys
  {
  }

  lemma TurnNotes(st: State, all: seq<Augment>, m: string, q: string, e: Error)
    requires m in st.waiting && q in st.waiting && Tidy(st.log)
    ensures var next := Turn(st, all, m);
            && Tidy(next.log) && next.schema.Keys == st.schema.Keys
            && next.mods == st.mods && next.waiting.Keys == st.waiting.Keys
            && (Wants(all, next.schema.Keys, next.waiting[q], e) <==> Wants(all, st.schema.Keys, st.waiting[q], e))
            && (e in Said(next.log, q) <==>
                  e in Said(st.log, q) || (q == m && Wants(all, st.schema.Keys, st.waiting[q], e)))
  {
    hide Sweep, Lost, Tried;
    var errors := Tried(all, st.schema.Keys, st.waiting[m]);
    SaidNote(st.log, m, errors);
    SweepKeys(st.schema, all, st.waiting[m]);
    TriedIs(all, st.schema.Keys, st.waiting[m], e);
    forall i: nat
      ensures i in Sweep(st.schema, all, st.waiting[m]).left ==> i in st.waiting[m]
      ensures i in st.waiting[m] && i < |all| && Lost(st.schema.Keys, all[i]) ==>
                i in Sweep(st.schema, all, st.waiting[m]).left
    {
      SweepLeaves(st.schema, all, st.waiting[m], i);
    }
  }

  lemma WithoutTail(mods: seq<string>, i: nat, q: string)
    requires i < |mods|
    ensures q in mods[i..] <==> q == mods[i] || q in Without(mods, i)[i..]
    ensures q in Without(mods, i) ==> q in mods
  {
    var n := |mods| - 1;
    var w := Without(mods, i);
    assert forall k :: 0 <= k < n ==> w[k] == if k == i then mods[n] else mods[k];
    if q in mods[i..] && q != mods[i] {
      var k :| i <= k < |mods| && mods[k] == q;
      var j := if k == n then i else k;
      assert w[i..][j - i] == q;
    }
    if q in w[i..] {
      var k :| i <= k < n && w[k] == q;
      var j := if k == i then n else k;
      assert mods[i..][j - i] == q;
    }
  }

  /** A pass notes just the augments of the modules it visits whose prefix leads nowhere. */
  lemma {:induction false} PassNotes(st: State, all: seq<Augment>, i: nat, q: string, e: Error)
    requires (forall m :: m in st.mods ==> m in st.waiting) && q in st.waiting && Tidy(st.log) && i <= |st.mods|
    ensures var next := Pass(st, all, i);
            && Tidy(next.log) && next.schema.Keys == st.schema.Keys && next.waiting.Keys == st.waiting.Keys
            && (forall m :: m in next.mods ==> m in st.mods)
            && (Wants(all, next.schema.Keys, next.waiting[q], e) <==> Wants(all, st.schema.Keys, st.waiting[q], e))
            && (e in Said(next.log, q) <==>
                  e in Said(st.log, q) || (q in st.mods[i..] && Wants(all, st.schema.Keys, st.waiting[q], e)))
    decreases |st.mods| - i
  {
    hide Turn, Wants, Without, Said, Tidy;
    if i < |st.mods| {
      var m := st.mods[i];
      var next := Turn(st, all, m);
      TurnNotes(st, all, m, q, e);
      assert st.mods[i..] == [m] + st.mods[i + 1..];
      if next.waiting[m] == [] {
        forall k ensures k in Without(next.mods, i) ==> k in next.mods { WithoutTail(next.mods, i, k); }
        WithoutTail(next.mods, i, q);
        WithoutShorter(next.mods, i);
        PassNotes(next.(mods := Without(next.mods, i)), all, i, q, e);
      } else {
        PassNotes(next, all, i + 1, q, e);
      }
    }
  }

  lemma WithoutShorter(mods: seq<string>, i: nat)
    requires i < |mods|
    ensures |Without(mods, i)| == |mods| - 1
  {
  }

  lemma {:induction false} LoopNotes(st: State, all: seq<Augment>, q: string, e: Error)
    requires (forall m :: m in st.mods ==> m in st.waiting) && q in st.waiting && Tidy(st.log)
    ensures e in Said(Loop(st, all).log, q) <==>
              e in Said(st.log, q) || (q in st.mods && Wants(all, st.schema.Keys, st.waiting[q], e))
    decreases if |st.run| <= |all| then |all| - |st.run| else 0
  {
    hide Pass, Wants, Said, Tidy;
    if st.mods != [] {
      var next := Pass(st, all, 0);
      PassNotes(st, all, 0, q, e);
      assert st.mods[0..] == st.mods;
      if !(|next.run| <= |st.run| || |st.run| >= |all|) { LoopNotes(next, all, q, e); }
    }
  }

  /**
   For any order of the modules, the loop reports at a module just those of its
   augments whose name starts at no module, under that name.
   */
  lemma HalfwayNotes(f: Forest, all: seq<Augment>, waiting: map<string, seq<nat>>, order: seq<string>, q: string,
                     e: Error)
    requires (forall m :: m in order ==> m in waiting) && q in waiting
    requires forall a :: a in all ==> a.home in f
    ensures e in Said(Halfway(f, all, waiting, order).log, q) <==>
              q in order && exists i :: i in waiting[q] && i < |all| && Nowhere(f.Keys, all[i])
                                     && e == UnknownPrefix(all[i].name)
  {
    hide Loop, Lost, Nowhere;
    var st := State(f, [], waiting, order, map[]);
    LoopNotes(st, all, q, e);
    forall i | 0 <= i < |all| ensures Lost(f.Keys, all[i]) <==> Nowhere(f.Keys, all[i]) {
      LostIsNowhere(f.Keys, all[i]);
    }
  }
}
