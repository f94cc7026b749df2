/**
 Process (pkg/yang/modules.go) from the augments on as a function of the order
 of the modules, and when that order does not matter for the schema at the end.
 A module may be listed more than once.
 */
module Outcomes {
  import opened Wrappers
  import opened Trees
  import opened Choices
  import opened Paths
  import opened Augments
  import opened Confluence
  import opened Supplies
  import opened Notes
  import opened Schedules
  import opened CasePaths
  import opened LateAugments
  import opened Remainders
  import opened LateOrders
  import opened LateReports
  import opened LateCases

  /** The state after the loop. */
  ghost function Halfway(f: Forest, all: seq<Augment>, waiting: map<string, seq<nat>>, order: seq<string>): State {
    Loop(State(f, [], waiting, order, map[]), all)
  }

  /** The state at the end: the loop, the cases, and the last loop over the modules left. */
  ghost function Outcome(f: Forest, all: seq<Augment>, waiting: map<string, seq<nat>>, order: seq<string>): State {
    var st := Halfway(f, all, waiting, order);
    Retry(Repaired(st, order), all, st.mods)
  }

  // ---------------------------------------------------------------- the modules that are left

  /** A module with something left is on the list as often as in `order`. */
  ghost predicate Busy(st: State, order: seq<string>, all: seq<Augment>) {
    && (forall m :: m in st.mods ==> m in st.waiting) && (forall i :: i in st.run ==> i < |all|)
    && forall m :: m in st.waiting && st.waiting[m] != [] ==> multiset(st.mods)[m] == multiset(order)[m]
  }

  /** The module has augments left, and none of them has a target. */
  ghost predicate Idle(g: Forest, all: seq<Augment>, waiting: map<string, seq<nat>>, m: string) {
    && m in waiting && waiting[m] != []
    && forall i :: i in waiting[m] && i < |all| ==> Target(g, all[i]) == None
  }

  /** The list without its `i`th module has the rest in two parts, the last one in between. */
  lemma WithoutParts(mods: seq<string>, i: nat)
    requires i < |mods|
    ensures var n, rest := |mods| - 1, Without(mods, i);
            && |rest| == n && rest[..i] == mods[..i]
            && (if i == n then mods == rest + [mods[i]] + []
                else mods == (mods[..i] + [mods[i]] + mods[i + 1..n]) + [mods[n]] + []
                     && rest == mods[..i] + [mods[n]] + mods[i + 1..n])
  {
  }

  lemma WithoutCount(mods: seq<string>, i: nat)
    requires i < |mods|
    ensures var rest := Without(mods, i);
            |rest| == |mods| - 1 && rest[..i] == mods[..i]
    ensures multiset(Without(mods, i)) == multiset(mods) - multiset{mods[i]}
  {
    hide Without;
    var n, a := |mods| - 1, mods[..i];
    WithoutParts(mods, i);
    if i == n {
      Middle(Without(mods, i), mods[i], []);
    } else {
      var b := mods[i + 1..n];
      Middle(a, mods[i], b);
      Middle(a, mods[n], b);
      Middle(a + [mods[i]] + b, mods[n], []);
    }
  }

  lemma Middle(a: seq<string>, x: string, b: seq<string>)
    ensures multiset(a + [x] + b) == multiset(a) + multiset{x} + multiset(b)
  {
  }

  lemma WithoutHas(mods: seq<string>, i: nat, m: string)
    requires i < |mods|
    ensures m in Without(mods, i) ==> m in mods
    ensures m != mods[i] ==> multiset(Without(mods, i))[m] == multiset(mods)[m]
  {
    WithoutCount(mods, i);
    CountHas(mods, m);
    CountHas(Without(mods, i), m);
  }

  lemma TurnBusy(st: State, order: seq<string>, all: seq<Augment>, m: string)
    requires Busy(st, order, all) && m in st.waiting
    ensures Busy(Turn(st, all, m), order, all)
  {
    hide Turn;
    var applied := TurnRun(st, all, m);
    BothBelow(st.run, applied, |all|);
    TurnShape(st, all, m);
  }

  /** A turn adds to the run, and leaves nothing to a module that had nothing left. */
  lemma TurnRun(st: State, all: seq<Augment>, m: string) returns (applied: seq<nat>)
    requires m in st.waiting
    ensures Turn(st, all, m).run == st.run + applied && forall i :: i in applied ==> i < |all|
    ensures m in Turn(st, all, m).waiting && (st.waiting[m] == [] ==> Turn(st, all, m).waiting[m] == [])
  {
    var list := st.waiting[m];
    var s := Sweep(st.schema, all, list);
    applied := s.applied;
    SweptBelow(st.schema, all, list);
    SweepNone(st.schema, all);
  }

  lemma {:induction false} SweptBelow(g: Forest, all: seq<Augment>, list: seq<nat>)
    ensures forall i :: i in Sweep(g, all, list).applied ==> i < |all|
    decreases |list|
  {
    hide Sweep, Target, Applied;
    if list == [] {
      SweepNone(g, all);
    } else {
      var i := list[0];
      var h := if i < |all| && Target(g, all[i]).Some? then Applied(g, all[i], Target(g, all[i]).value) else g;
      SweptBelow(h, all, list[1..]);
      SweepStep(g, all, list);
    }
  }

  lemma BothBelow(a: seq<nat>, b: seq<nat>, n: nat)
    requires (forall i :: i in a ==> i < n) && forall i :: i in b ==> i < n
    ensures forall i :: i in a + b ==> i < n
  {
  }

  lemma WithoutBusy(st: State, order: seq<string>, all: seq<Augment>, i: nat)
    requires Busy(st, order, all) && i < |st.mods| && st.waiting[st.mods[i]] == []
    ensures Busy(st.(mods := Without(st.mods, i)), order, all)
  {
    hide Without;
    forall m
      ensures m in Without(st.mods, i) ==> m in st.mods
      ensures m != st.mods[i] ==> multiset(Without(st.mods, i))[m] == multiset(st.mods)[m]
    {
      WithoutHas(st.mods, i, m);
    }
  }

  /** A pass keeps the lists, and drops only modules that have nothing left. */
  lemma {:induction false} PassKeeps(waiting: map<string, seq<nat>>, st: State, order: seq<string>,
                                     all: seq<Augment>, i: nat)
    requires Separate(waiting) && Keeps(waiting, st) && Busy(st, order, all)
    ensures var end := Pass(st, all, i); Keeps(waiting, end) && Busy(end, order, all)
    decreases |st.mods| - i
  {
    hide Turn, Separate, Keeps, Without, Busy;
    if i < |st.mods| {
      var m := st.mods[i];
      BusyHas(st, order, all, m);
      KeepsKeys(waiting, st);
      TurnKeeps(waiting, st, all, m);
      TurnBusy(st, order, all, m);
      TurnShape(st, all, m);
      var next := Turn(st, all, m);
      if next.waiting[m] == [] {
        WithoutBusy(next, order, all, i);
        WithoutCount(next.mods, i);
        OtherModules(waiting, next, next.(mods := Without(next.mods, i)));
        PassKeeps(waiting, next.(mods := Without(next.mods, i)), order, all, i);
      } else {
        PassKeeps(waiting, next, order, all, i + 1);
      }
    }
  }

  lemma BusyHas(st: State, order: seq<string>, all: seq<Augment>, m: string)
    requires Busy(st, order, all)
    ensures m in st.mods ==> m in st.waiting
    ensures forall i :: i in st.run ==> i < |all|
  {
  }

  lemma {:induction false} PassRun(st: State, all: seq<Augment>, i: nat)
    ensures |st.run| <= |Pass(st, all, i).run|
    decreases |st.mods| - i
  {
    hide Sweep, Note, Tried;
    if i < |st.mods| && st.mods[i] in st.waiting {
      var next := Turn(st, all, st.mods[i]);
      if next.waiting[st.mods[i]] == [] {
        PassRun(next.(mods := Without(next.mods, i)), all, i);
      } else {
        PassRun(next, all, i + 1);
      }
    }
  }

  /** A pass that applies nothing changes no schema and no list, and only modules without a target stay. */
  lemma {:induction false} PassInVain(st: State, all: seq<Augment>, i: nat)
    requires |Pass(st, all, i).run| <= |st.run| && forall m :: m in st.mods ==> m in st.waiting
    requires forall k :: 0 <= k < i <= |st.mods| ==> Idle(st.schema, all, st.waiting, st.mods[k])
    requires i <= |st.mods|
    ensures var end := Pass(st, all, i);
            && end.schema == st.schema && end.waiting == st.waiting
            && forall m :: m in end.mods ==> Idle(end.schema, all, end.waiting, m)
    decreases |st.mods| - i
  {
    hide Turn, Without, Idle;
    if i < |st.mods| {
      var m := st.mods[i];
      var next := Turn(st, all, m);
      VainTurn(st, all, i);
      var on := next.(mods := Without(next.mods, i));
      if next.waiting[m] == [] {
        WithoutCount(next.mods, i);
        assert forall k :: 0 <= k < i ==> on.mods[k] == on.mods[..i][k] == st.mods[..i][k];
        forall n | n in on.mods
          ensures n in on.waiting
        {
          WithoutHas(next.mods, i, n);
        }
        PassInVain(on, all, i);
      } else {
        assert forall k :: 0 <= k < i + 1 ==> Idle(next.schema, all, next.waiting, next.mods[k]);
        PassInVain(next, all, i + 1);
      }
    } else {
      PassEnd(st, all, i);
      forall m | m in st.mods
        ensures Idle(st.schema, all, st.waiting, m)
      {
        var k :| 0 <= k < |st.mods| && st.mods[k] == m;
      }
    }
  }

  /** The `i`th turn of such a pass applies nothing. */
  lemma VainTurn(st: State, all: seq<Augment>, i: nat)
    requires i < |st.mods| && st.mods[i] in st.waiting && |Pass(st, all, i).run| <= |st.run|
    ensures var m := st.mods[i];
            var next := Turn(st, all, m);
            && next.schema == st.schema && next.waiting == st.waiting && next.mods == st.mods && next.run == st.run
            && (next.waiting[m] != [] ==> Idle(next.schema, all, next.waiting, m))
  {
    hide Pass, Sweep, Without, Note, Tried;
    var m := st.mods[i];
    var next := Turn(st, all, m);
    PassStep(st, all, i);
    PassRun(next.(mods := Without(next.mods, i)), all, i);
    PassRun(next, all, i + 1);
    TurnInVain(st, all, m);
  }

  /**
   After the loop each module has left what was not applied, is on the list
   just if something is left, as often as at the start, and finds no target.
   */
  lemma {:induction false} LoopKeeps(waiting: map<string, seq<nat>>, st: State, order: seq<string>,
                                     all: seq<Augment>)
    requires Separate(waiting) && Keeps(waiting, st) && Busy(st, order, all)
    ensures var end := Loop(st, all);
            && Keeps(waiting, end) && Busy(end, order, all)
            && forall m :: m in end.mods ==> Idle(end.schema, all, end.waiting, m)
    decreases if |st.run| <= |all| then |all| - |st.run| else 0
  {
    hide Pass, Separate, Keeps, Busy, Idle;
    if st.mods != [] {
      var next := Pass(st, all, 0);
      PassKeeps(waiting, st, order, all, 0);
      if |next.run| <= |st.run| {
        forall m | m in st.mods
          ensures m in st.waiting
        {
          BusyHas(st, order, all, m);
        }
        PassInVain(st, all, 0);
      } else {
        BusyHas(next, order, all, "");
        KeepsKeys(waiting, next);
        RunSize(next.run, |all|);
        LoopKeeps(waiting, next, order, all);
      }
    }
  }

  // ---------------------------------------------------------------- what the loop notes

  lemma TurnLog(st: State, all: seq<Augment>, m: string)
    requires st.log == map[] && (forall a :: a in all ==> !Lost(st.schema.Keys, a)) && m in st.waiting
    ensures var next := Turn(st, all, m);
            next.log == map[] && next.schema.Keys == st.schema.Keys && next.mods == st.mods && m in next.waiting
  {
    hide Sweep, Lost;
    NoneLost(all, st.schema.Keys, st.waiting[m]);
    SweepKeys(st.schema, all, st.waiting[m]);
  }

  /** Where every prefix leads to a module, the loop notes nothing. */
  lemma {:induction false} PassLog(st: State, all: seq<Augment>, i: nat)
    requires st.log == map[] && forall a :: a in all ==> !Lost(st.schema.Keys, a)
    ensures Pass(st, all, i).log == map[] && Pass(st, all, i).schema.Keys == st.schema.Keys
    decreases |st.mods| - i
  {
    hide Turn, Lost, Without;
    if i < |st.mods| && st.mods[i] in st.waiting {
      var m := st.mods[i];
      TurnLog(st, all, m);
      var next := Turn(st, all, m);
      if next.waiting[m] == [] {
        WithoutCount(next.mods, i);
        PassLog(next.(mods := Without(next.mods, i)), all, i);
      } else {
        PassLog(next, all, i + 1);
      }
    }
  }

  lemma {:induction false} LoopLog(st: State, all: seq<Augment>)
    requires st.log == map[] && forall a :: a in all ==> !Lost(st.schema.Keys, a)
    ensures Loop(st, all).log == map[] && Loop(st, all).schema.Keys == st.schema.Keys
    decreases if |st.run| <= |all| then |all| - |st.run| else 0
  {
    hide Pass, Lost;
    if st.mods != [] {
      PassLog(st, all, 0);
      var next := Pass(st, all, 0);
      if !(|next.run| <= |st.run| || |st.run| >= |all|) { LoopLog(next, all); }
    }
  }

  // ---------------------------------------------------------------- halfway

  /** Every module has its turns, and the lists of the modules hold all the augments, each once. */
  ghost predicate Listed(f: Forest, all: seq<Augment>, waiting: map<string, seq<nat>>, order: seq<string>) {
    && waiting.Keys == f.Keys && (forall m :: m in f <==> m in order) && Separate(waiting)
    && forall i: nat :: i < |all| ==> InSome(waiting, i)
  }

  /** The number is in one of the lists. */
  ghost predicate InSome(waiting: map<string, seq<nat>>, i: nat) {
    exists m :: m in waiting && i in waiting[m]
  }

  lemma HalfwayKeeps(f: Forest, all: seq<Augment>, waiting: map<string, seq<nat>>, order: seq<string>)
    requires Listed(f, all, waiting, order)
    ensures var st := Halfway(f, all, waiting, order);
            && Keeps(waiting, st) && Busy(st, order, all)
            && forall m :: m in st.mods ==> Idle(st.schema, all, st.waiting, m)
  {
    hide Loop, Keeps, Separate, Idle;
    StartKeeps(f, waiting, order, map[]);
    LoopKeeps(waiting, State(f, [], waiting, order, map[]), order, all);
  }

  lemma HalfwayRuns(f: Forest, all: seq<Augment>, waiting: map<string, seq<nat>>, order: seq<string>)
    ensures var st := Halfway(f, all, waiting, order); After(f, all, st.run) == Some(st.schema)
  {
    hide Loop, After;
    var st := State(f, [], waiting, order, map[]);
    AfterNothing(f, all);
    FollowsMeans(f, all, [], st);
    LoopFollows(f, all, [], st);
    FollowsMeans(f, all, [], Loop(st, all));
  }

  /** How often a module is on the list halfway. */
  lemma LeftCount(f: Forest, all: seq<Augment>, waiting: map<string, seq<nat>>, order: seq<string>, m: string)
    requires Listed(f, all, waiting, order)
    ensures var st := Halfway(f, all, waiting, order);
            multiset(st.mods)[m] == if m in st.waiting && st.waiting[m] != [] then multiset(order)[m] else 0
  {
    hide Halfway, Keeps, Listed;
    HalfwayKeeps(f, all, waiting, order);
    CountHas(Halfway(f, all, waiting, order).mods, m);
  }

  /** The loop ends in a complete run. */
  lemma HalfwayIsComplete(f: Forest, all: seq<Augment>, waiting: map<string, seq<nat>>, order: seq<string>)
    requires Listed(f, all, waiting, order)
    ensures Complete(f, all, Halfway(f, all, waiting, order).run)
  {
    hide Halfway, After, Once, Target, Separate, Remaining;
    var st := Halfway(f, all, waiting, order);
    HalfwayKeeps(f, all, waiting, order);
    HalfwayRuns(f, all, waiting, order);
    forall i: nat | i < |all| && i !in st.run
      ensures Target(st.schema, all[i]) == None
    {
      assert InSome(waiting, i);
      var m :| m in waiting && i in waiting[m];
      RemainingHas(waiting[m], Members(st.run));
      LeftCount(f, all, waiting, order, m);
      CountHas(order, m);
      CountHas(st.mods, m);
    }
  }

  /**
   Two orders of the modules, each module as often in both; no two augments
   that are applied in one of them clash, and every prefix leads to a module.
   */
  ghost predicate Comparable(f: Forest, all: seq<Augment>, waiting: map<string, seq<nat>>, order: seq<string>,
                             other: seq<string>)
  {
    && Arranged(other, order) && Listed(f, all, waiting, order) && (forall a :: a in all ==> !Lost(f.Keys, a))
    && NoClash(f, all, Halfway(f, all, waiting, order).run)
  }

  lemma OtherListed(f: Forest, all: seq<Augment>, waiting: map<string, seq<nat>>, order: seq<string>,
                    other: seq<string>)
    requires Listed(f, all, waiting, order) && Arranged(other, order)
    ensures Listed(f, all, waiting, other)
  {
    hide Arranged, Separate, InSome;
    ArrangedHas(other, order);
  }

  /** Halfway two orders have the same schema, the same augments waiting, and the same modules left, each as often. */
  lemma SameHalfway(f: Forest, all: seq<Augment>, waiting: map<string, seq<nat>>, order: seq<string>,
                    other: seq<string>)
    requires Comparable(f, all, waiting, order, other)
    ensures var a, b := Halfway(f, all, waiting, order), Halfway(f, all, waiting, other);
            && a.schema == b.schema && a.waiting == b.waiting && Arranged(b.mods, a.mods)
            && (forall m :: m in a.mods ==> m in a.waiting) && a.log == map[] && b.log == map[]
            && a.schema.Keys == f.Keys
  {
    hide Loop, After, NoClash, Lost, Halfway, Keeps, Arranged, Complete, Listed, Idle;
    var a, b := Halfway(f, all, waiting, order), Halfway(f, all, waiting, other);
    OtherListed(f, all, waiting, order, other);
    HalfwayKeeps(f, all, waiting, order);
    HalfwayKeeps(f, all, waiting, other);
    HalfwayRuns(f, all, waiting, order);
    HalfwayRuns(f, all, waiting, other);
    HalfwayIsComplete(f, all, waiting, order);
    HalfwayIsComplete(f, all, waiting, other);
    HalfwayLog(f, all, waiting, order);
    HalfwayLog(f, all, waiting, other);
    Confluent(f, all, a.run, b.run);
    SameWaiting(waiting, a, b);
    SameLeft(f, all, waiting, order, other);
  }

  lemma HalfwayLog(f: Forest, all: seq<Augment>, waiting: map<string, seq<nat>>, order: seq<string>)
    requires forall a :: a in all ==> !Lost(f.Keys, a)
    ensures var st := Halfway(f, all, waiting, order); st.log == map[] && st.schema.Keys == f.Keys
  {
    hide Loop, Lost;
    LoopLog(State(f, [], waiting, order, map[]), all);
  }

  lemma SameWaiting(waiting: map<string, seq<nat>>, a: State, b: State)
    requires Keeps(waiting, a) && Keeps(waiting, b) && forall i :: i in a.run <==> i in b.run
    ensures a.waiting == b.waiting
  {
    hide Remaining, Once;
    assert Members(a.run) == Members(b.run);
  }

  lemma SameLeft(f: Forest, all: seq<Augment>, waiting: map<string, seq<nat>>, order: seq<string>,
                 other: seq<string>)
    requires Listed(f, all, waiting, order) && Listed(f, all, waiting, other) && Arranged(other, order)
    requires Halfway(f, all, waiting, order).waiting == Halfway(f, all, waiting, other).waiting
    ensures Arranged(Halfway(f, all, waiting, other).mods, Halfway(f, all, waiting, order).mods)
  {
    hide Halfway, Listed;
    var a, b := Halfway(f, all, waiting, order), Halfway(f, all, waiting, other);
    forall m
      ensures multiset(b.mods)[m] == multiset(a.mods)[m]
    {
      LeftCount(f, all, waiting, order, m);
      LeftCount(f, all, waiting, other, m);
    }
  }

  // ---------------------------------------------------------------- any order

  /** The augments left halfway do not clash once the cases are in. */
  ghost predicate LateFair(f: Forest, all: seq<Augment>, waiting: map<string, seq<nat>>, order: seq<string>) {
    var st := Halfway(f, all, waiting, order);
    Fair(FixedIn(st.schema, order), all, st.waiting, st.mods)
  }

  /** And no module hangs on the others, in all its turns together. */
  ghost predicate LateSettled(f: Forest, all: seq<Augment>, waiting: map<string, seq<nat>>, order: seq<string>) {
    var st := Halfway(f, all, waiting, order);
    && LateFair(f, all, waiting, order) && (forall m :: m in st.mods ==> m in st.waiting)
    && Settled(FixedIn(st.schema, order), all, st.waiting, st.mods)
  }

  /** Or in any of them. */
  ghost predicate LateSteady(f: Forest, all: seq<Augment>, waiting: map<string, seq<nat>>, order: seq<string>) {
    var st := Halfway(f, all, waiting, order);
    && LateFair(f, all, waiting, order) && (forall m :: m in st.mods ==> m in st.waiting)
    && Steady(FixedIn(st.schema, order), all, st.waiting, st.mods)
  }

  /**
   Then Process ends with the same schema for both orders; with the same errors
   too if no single turn hangs on other modules.
   */
  lemma AnyOrder(f: Forest, all: seq<Augment>, waiting: map<string, seq<nat>>, order: seq<string>,
                 other: seq<string>)
    requires Comparable(f, all, waiting, order, other)
    ensures var a, b := Outcome(f, all, waiting, order), Outcome(f, all, waiting, other);
            && (LateSettled(f, all, waiting, order) ==> a.schema == b.schema)
            && (LateSteady(f, all, waiting, order) ==> a.schema == b.schema && a.log == b.log)
  {
    hide Fair, Settled, Steady, Fixed, Lost, Retry, Halfway, NoClash, Arranged, Listed;
    SameHalfway(f, all, waiting, order, other);
    var a, b := Halfway(f, all, waiting, order), Halfway(f, all, waiting, other);
    var h := FixedIn(a.schema, order);
    ArrangedHas(other, order);
    assert FixedIn(b.schema, other) == h && h.Keys == f.Keys;
    ArrangedSelf(a.mods);
    if LateSteady(f, all, waiting, order) {
      SteadyIsSettled(h, all, a.waiting, a.mods);
      SameReports(h, all, a.waiting, a.mods, a.mods, b.mods);
    }
    if LateSettled(f, all, waiting, order) {
      SettledSchema(h, all, a.waiting, a.mods, a.mods, b.mods);
    }
  }

  lemma ArrangedSelf(mods: seq<string>)
    ensures Arranged(mods, mods)
  {
  }
}
