/**
 The last loop of Process (pkg/yang/modules.go): once the cases are in, each
 module that still has augments tries them once more.
 */
module LateAugments {
  import opened Wrappers
  import opened Trees
  import opened Paths
  import opened Augments
  import opened Confluence
  import opened Notes
  import opened Schedules

  // ---------------------------------------------------------------- one list

  lemma TurnGrows(g: Forest, a: Augment)
    requires Target(g, a).Some?
    ensures Grown(g, Applied(g, a, Target(g, a).value))
  {
    AppliedGrows(g, a, Target(g, a).value);
  }

  lemma {:induction false} SweepGrows(g: Forest, all: seq<Augment>, list: seq<nat>)
    ensures Grown(g, Sweep(g, all, list).schema)
    decreases |list|
  {
    hide Target, Applied, Grown;
    if list == [] {
      GrownSelf(g);
    } else {
      var i := list[0];
      if i < |all| && Target(g, all[i]).Some? {
        TurnGrows(g, all[i]);
        var h := Applied(g, all[i], Target(g, all[i]).value);
        SweepGrows(h, all, list[1..]);
        GrownOn(g, h, Sweep(h, all, list[1..]).schema);
      } else {
        SweepGrows(g, all, list[1..]);
      }
    }
  }

  lemma GrownSelf(g: Forest)
    ensures Grown(g, g)
  {
  }

  /** What is applied and what is left come from the list, each number once. */
  lemma {:induction false} SweepParts(g: Forest, all: seq<Augment>, list: seq<nat>)
    ensures var s := Sweep(g, all, list);
            && (forall i :: i in list <==> i in s.applied || i in s.left)
            && (forall i :: i in s.applied ==> i < |all|)
            && (Once(list) ==> Once(s.applied) && forall i :: i in s.applied ==> i !in s.left)
    decreases |list|
  {
    hide Target, Applied, Once;
    if list == [] {
      NoneTwice();
    } else {
      var i, rest := list[0], list[1..];
      assert list == [i] + rest;
      var g1 := if i < |all| && Target(g, all[i]).Some? then Applied(g, all[i], Target(g, all[i]).value) else g;
      SweepParts(g1, all, rest);
      var r := Sweep(g1, all, rest);
      OnceMore(i, rest);
      OnceMore(i, r.applied);
    }
  }

  lemma NoneTwice()
    ensures Once([])
  {
  }

  lemma OnceMore(i: nat, rest: seq<nat>)
    ensures Once([i] + rest) <==> i !in rest && Once(rest)
  {
    var w := [i] + rest;
    assert forall k :: 0 <= k < |rest| ==> w[k + 1] == rest[k];
    if Once(w) {
      forall k | 0 <= k < |rest|
        ensures rest[k] != i
      {
        assert w[0] != w[k + 1];
      }
      forall j, k | 0 <= j < k < |rest|
        ensures rest[j] != rest[k]
      {
        assert w[j + 1] != w[k + 1];
      }
    } else {
      var j, k :| 0 <= j < k < |w| && w[j] == w[k];
      assert w[k] == rest[k - 1];
      if j > 0 { assert w[j] == rest[j - 1]; }
    }
  }

  /** The run and the list hold each number once, and none is in both. */
  predicate Apart(done: seq<nat>, list: seq<nat>) {
    Once(done) && Once(list) && forall i :: i in done ==> i !in list
  }

  lemma OnceConcat(a: seq<nat>, b: seq<nat>)
    ensures Once(a + b) <==> Apart(a, b)
  {
    var w := a + b;
    assert forall j :: 0 <= j < |a| ==> w[j] == a[j];
    assert forall j :: 0 <= j < |b| ==> w[|a| + j] == b[j];
    if Once(w) {
      forall j, k | 0 <= j < k < |b|
        ensures b[j] != b[k]
      {
        assert w[|a| + j] != w[|a| + k];
      }
      forall j, k | 0 <= j < |a| && 0 <= k < |b|
        ensures a[j] != b[k]
      {
        assert w[j] != w[|a| + k];
      }
    } else {
      var j, k :| 0 <= j < k < |w| && w[j] == w[k];
      if j >= |a| {
        assert b[j - |a|] == b[k - |a|];
      } else if k >= |a| {
        assert a[j] in a && b[k - |a|] in b;
      }
    }
  }

  lemma PrefixHas(a: seq<nat>, b: seq<nat>, i: nat)
    requires a <= b && i in a
    ensures i in b
  {
    var k :| 0 <= k < |a| && a[k] == i;
    assert b[k] == i;
  }

  /** An augment that has a target from the start is applied. */
  lemma {:induction false} SweepApplies(g: Forest, all: seq<Augment>, list: seq<nat>, i: nat)
    requires i in list && i < |all| && Target(g, all[i]).Some?
    ensures i in Sweep(g, all, list).applied
    decreases |list|
  {
    hide Target, Applied, Grown;
    var j := list[0];
    assert list == [j] + list[1..];
    if j != i {
      if j < |all| && Target(g, all[j]).Some? {
        TurnGrows(g, all[j]);
        var h := Applied(g, all[j], Target(g, all[j]).value);
        TargetStays(g, h, all[i]);
        SweepApplies(h, all, list[1..], i);
      } else {
        SweepApplies(g, all, list[1..], i);
      }
    }
  }

  // ---------------------------------------------------------------- the last loop

  /** Every augment that has a target once the cases are in is applied, a module listed twice or not. */
  lemma {:induction false} RetryApplies(st: State, all: seq<Augment>, mods: seq<string>, m: string, i: nat)
    requires m in mods && forall n :: n in mods ==> n in st.waiting
    requires i in st.waiting[m] && i < |all| && Target(st.schema, all[i]).Some?
    ensures i in Retry(st, all, mods).run
    decreases |mods|
  {
    hide Sweep, Target, Note, Tried, Missed, Grown;
    var n := mods[0];
    assert mods == [n] + mods[1..];
    var next := LastTurn(st, all, n);
    if n == m {
      SweepApplies(st.schema, all, st.waiting[m], i);
      RetryKeeps(next, all, mods[1..]);
      PrefixHas(next.run, Retry(next, all, mods[1..]).run, i);
    } else {
      SweepGrows(st.schema, all, st.waiting[n]);
      TargetStays(st.schema, next.schema, all[i]);
      RetryApplies(next, all, mods[1..], m, i);
    }
  }

  lemma {:induction false} RetryKeeps(st: State, all: seq<Augment>, mods: seq<string>)
    ensures st.run <= Retry(st, all, mods).run
    decreases |mods|
  {
    hide Sweep, Note, Tried, Missed;
    if mods != [] && mods[0] in st.waiting { RetryKeeps(LastTurn(st, all, mods[0]), all, mods[1..]); }
  }

  /** What it applies is a run. */
  lemma {:induction false} RetryRuns(f: Forest, all: seq<Augment>, st: State, mods: seq<string>)
    requires After(f, all, st.run) == Some(st.schema)
    ensures var end := Retry(st, all, mods); After(f, all, end.run) == Some(end.schema)
    decreases |mods|
  {
    hide Sweep, Note, Tried, Missed, After;
    if mods != [] && mods[0] in st.waiting {
      SweepRuns(f, all, st.run, st.schema, st.waiting[mods[0]]);
      RetryRuns(f, all, LastTurn(st, all, mods[0]), mods[1..]);
    }
  }
}
