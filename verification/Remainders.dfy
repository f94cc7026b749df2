/** What of the lists of the modules is left while augments are applied (pkg/yang/entry.go, pkg/yang/modules.go). */
module Remainders {
  import opened Wrappers
  import opened Trees
  import opened Paths
  import opened Augments
  import opened Notes
  import opened Supplies
  import opened Schedules
  import opened LateAugments

  /** Each list holds each number once, and no number is in two lists. */
  predicate Separate(waiting: map<string, seq<nat>>) {
    && (forall m :: m in waiting ==> Once(waiting[m]))
    && forall m, n, i :: m in waiting && n in waiting && m != n && i in waiting[m] ==> i !in waiting[n]
  }

  /** The numbers of the list that are not in `js`. */
  function Remaining(list: seq<nat>, js: set<nat>): seq<nat> {
    if list == [] then []
    else (if list[0] in js then [] else [list[0]]) + Remaining(list[1..], js)
  }

  lemma {:induction false} RemainingOf(list: seq<nat>, js: set<nat>, more: set<nat>)
    requires forall i :: i in list ==> (i in js <==> i in more)
    ensures Remaining(list, js) == Remaining(list, more)
    decreases |list|
  {
    if list != [] {
      assert list == [list[0]] + list[1..];
      RemainingOf(list[1..], js, more);
    }
  }

  lemma {:induction false} RemainingAll(list: seq<nat>)
    ensures Remaining(list, {}) == list
    decreases |list|
  {
    if list != [] { RemainingAll(list[1..]); }
  }

  lemma {:induction false} RemainingTwice(list: seq<nat>, js: set<nat>, more: set<nat>)
    ensures Remaining(Remaining(list, js), more) == Remaining(list, js + more)
    decreases |list|
  {
    if list != [] {
      RemainingTwice(list[1..], js, more);
      var i, rest := list[0], Remaining(list[1..], js);
      if i in js {
        assert [] + rest == rest;
        assert [] + Remaining(list[1..], js + more) == Remaining(list[1..], js + more);
      } else {
        assert ([i] + rest)[0] == i && ([i] + rest)[1..] == rest;
      }
    }
  }

  lemma {:induction false} RemainingHas(list: seq<nat>, js: set<nat>)
    ensures forall i :: i in Remaining(list, js) <==> i in list && i !in js
    ensures Once(list) ==> Once(Remaining(list, js))
    decreases |list|
  {
    hide Once;
    if list == [] {
      NoneTwice();
    } else {
      assert list == [list[0]] + list[1..];
      RemainingHas(list[1..], js);
      OnceMore(list[0], list[1..]);
      OnceMore(list[0], Remaining(list[1..], js));
      assert [] + Remaining(list[1..], js) == Remaining(list[1..], js);
    }
  }

  /** A sweep leaves what it does not apply, in order. */
  lemma {:induction false} SweepLeaves(g: Forest, all: seq<Augment>, list: seq<nat>)
    requires Once(list)
    ensures Sweep(g, all, list).left == Remaining(list, Members(Sweep(g, all, list).applied))
    decreases |list|
  {
    hide Target, Applied, Sweep, Once;
    if list == [] {
      SweepNone(g, all);
    } else {
      var i, rest := list[0], list[1..];
      assert list == [i] + rest;
      OnceMore(i, rest);
      SweepStep(g, all, list);
      var h := if i < |all| && Target(g, all[i]).Some? then Applied(g, all[i], Target(g, all[i]).value) else g;
      SweepLeaves(h, all, rest);
      SweepParts(h, all, rest);
      var s := Sweep(h, all, rest);
      RemainingOf(rest, Members(s.applied), Members([i] + s.applied));
      assert i !in s.applied;
      assert [] + s.left == s.left;
    }
  }

  /** The run has no augment twice, and the lists of the state hold what of `waiting` is not in it. */
  ghost predicate Keeps(waiting: map<string, seq<nat>>, st: State) {
    && st.waiting.Keys == waiting.Keys && Once(st.run)
    && forall m :: m in waiting ==> st.waiting[m] == Remaining(waiting[m], Members(st.run))
  }

  lemma TurnKeeps(waiting: map<string, seq<nat>>, st: State, all: seq<Augment>, m: string)
    requires Separate(waiting) && Keeps(waiting, st) && m in waiting
    ensures Keeps(waiting, Turn(st, all, m))
  {
    hide Sweep, Remaining, Note, Tried, Once;
    var next, list := Turn(st, all, m), waiting[m];
    var js, applied := Members(st.run), Sweep(st.schema, all, st.waiting[m]).applied;
    RemainingHas(list, js);
    SweepLeaves(st.schema, all, st.waiting[m]);
    SweepParts(st.schema, all, st.waiting[m]);
    RemainingTwice(list, js, Members(applied));
    OnceConcat(st.run, applied);
    assert Members(next.run) == js + Members(applied);
    forall n | n in waiting && n != m
      ensures next.waiting[n] == Remaining(waiting[n], Members(next.run))
    {
      assert forall i :: i in applied ==> i in list && i !in waiting[n];
      RemainingOf(waiting[n], js, Members(next.run));
    }
  }

  lemma KeepsKeys(waiting: map<string, seq<nat>>, st: State)
    requires Keeps(waiting, st)
    ensures st.waiting.Keys == waiting.Keys && Once(st.run)
  {
  }

  /** The modules that have a turn next, and what is reported, change nothing here. */
  lemma OtherModules(waiting: map<string, seq<nat>>, st: State, next: State)
    requires Keeps(waiting, st) && next == st.(mods := next.mods, log := next.log)
    ensures Keeps(waiting, next)
  {
  }

  /** The state before anything is applied. */
  lemma StartKeeps(f: Forest, waiting: map<string, seq<nat>>, order: seq<string>, log: Log)
    ensures Keeps(waiting, State(f, [], waiting, order, log))
  {
    NoneTwice();
    assert Members([]) == {};
    forall m | m in waiting
      ensures Remaining(waiting[m], {}) == waiting[m]
    {
      RemainingAll(waiting[m]);
    }
  }
}
