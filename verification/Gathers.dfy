/** Which augments the sweeps of a list apply, read from names and bodies (Augment of pkg/yang/entry.go). */
module Gathers {
  import opened Wrappers
  import opened Trees
  import opened Paths
  import opened Augments
  import opened Confluence
  import opened Supplies
  import opened Schedules
  import opened LateAugments
  import opened Remainders

  /** Augment `i` is added to the applied ones `js` if its name leads somewhere with them. */
  ghost function Taken(h: Forest, all: seq<Augment>, js: set<nat>, i: nat): set<nat> {
    if i < |all| && Leads(h, all, js, all[i]) then js + {i} else js
  }

  /** The augments applied after one sweep of the list, those before included. */
  ghost function Gather(h: Forest, all: seq<Augment>, js: set<nat>, list: seq<nat>): set<nat>
    decreases |list|
  {
    if list == [] then js else Gather(h, all, Taken(h, all, js, list[0]), list[1..])
  }

  /** Those after `t` sweeps of it. */
  ghost function Turns(h: Forest, all: seq<Augment>, js: set<nat>, list: seq<nat>, t: nat): set<nat> {
    if t == 0 then js else Gather(h, all, Turns(h, all, js, list, t - 1), list)
  }

  lemma {:induction false} GatherWithin(h: Forest, all: seq<Augment>, js: set<nat>, list: seq<nat>)
    ensures js <= Gather(h, all, js, list) <= js + Members(list)
    ensures forall i :: i in Gather(h, all, js, list) ==> i in js || i < |all|
    decreases |list|
  {
    hide Leads;
    if list != [] {
      assert list == [list[0]] + list[1..];
      GatherWithin(h, all, Taken(h, all, js, list[0]), list[1..]);
    }
  }

  /** With more applied before, a sweep takes no less. */
  lemma {:induction false} GatherMore(h: Forest, all: seq<Augment>, js: set<nat>, more: set<nat>, list: seq<nat>)
    requires js <= more
    ensures Gather(h, all, js, list) <= Gather(h, all, more, list)
    decreases |list|
  {
    hide Leads;
    if list != [] {
      if list[0] < |all| { LeadsGrows(h, all, js, more, all[list[0]]); }
      GatherMore(h, all, Taken(h, all, js, list[0]), Taken(h, all, more, list[0]), list[1..]);
    }
  }

  lemma {:induction false} TurnsWithin(h: Forest, all: seq<Augment>, js: set<nat>, list: seq<nat>, t: nat)
    ensures js <= Turns(h, all, js, list, t) <= js + Members(list)
    ensures forall i :: i in Turns(h, all, js, list, t) ==> i in js || i < |all|
  {
    hide Gather;
    if t > 0 {
      TurnsWithin(h, all, js, list, t - 1);
      GatherWithin(h, all, Turns(h, all, js, list, t - 1), list);
    }
  }

  lemma {:induction false} TurnsMore(h: Forest, all: seq<Augment>, js: set<nat>, more: set<nat>, list: seq<nat>, t: nat)
    requires js <= more
    ensures Turns(h, all, js, list, t) <= Turns(h, all, more, list, t)
  {
    hide Gather;
    if t > 0 {
      TurnsMore(h, all, js, more, list, t - 1);
      GatherMore(h, all, Turns(h, all, js, list, t - 1), Turns(h, all, more, list, t - 1), list);
    }
  }

  lemma {:induction false} TurnsLater(h: Forest, all: seq<Augment>, js: set<nat>, list: seq<nat>, t: nat, u: nat)
    requires t <= u
    ensures Turns(h, all, js, list, t) <= Turns(h, all, js, list, u)
    decreases u
  {
    hide Gather;
    if t < u {
      TurnsLater(h, all, js, list, t, u - 1);
      GatherWithin(h, all, Turns(h, all, js, list, u - 1), list);
    }
  }

  /** Those of the list that were applied before make no difference. */
  lemma {:induction false} GatherRemaining(h: Forest, all: seq<Augment>, js: set<nat>, list: seq<nat>, done: set<nat>)
    requires done <= js
    ensures Gather(h, all, js, Remaining(list, done)) == Gather(h, all, js, list)
    decreases |list|
  {
    hide Leads;
    if list != [] {
      var i, rest := list[0], list[1..];
      if i in done {
        assert js + {i} == js;
        GatherRemaining(h, all, js, rest, done);
        assert [] + Remaining(rest, done) == Remaining(rest, done);
      } else {
        GatherRemaining(h, all, Taken(h, all, js, i), rest, done);
        assert ([i] + Remaining(rest, done))[1..] == Remaining(rest, done);
      }
    }
  }

  /** Where nothing clashes, that is what a sweep after the run `done` applies. */
  lemma {:induction false} GatherIsSweep(h: Forest, all: seq<Augment>, done: seq<nat>, g: Forest, list: seq<nat>)
    requires After(h, all, done) == Some(g) && Apart(done, list) && NoClash(h, all, done + list)
    ensures var s := Sweep(g, all, list);
            && Members(done + s.applied) == Gather(h, all, Members(done), list)
            && After(h, all, done + s.applied) == Some(s.schema)
    decreases |list|
  {
    hide After, Target, Applied, Leads, NoClash, Sweep;
    if list == [] {
      SweepNone(g, all);
      assert done + [] == done;
    } else {
      var i, rest := list[0], list[1..];
      assert list == [i] + rest && done + list == done + [i] + rest;
      NextApart(done, i, rest);
      SweepStep(g, all, list);
      NoClashPart(h, all, done + list, done);
      if i < |all| { LeadsIsExact(h, all, done, all[i]); }
      if i < |all| && Target(g, all[i]).Some? {
        AfterOneMore(h, all, done, g, i);
        var k := Applied(g, all[i], Target(g, all[i]).value);
        GatherIsSweep(h, all, done + [i], k, rest);
        assert done + [i] + Sweep(k, all, rest).applied == done + Sweep(g, all, list).applied;
        assert Members(done + [i]) == Members(done) + {i};
      } else {
        NoClashPart(h, all, done + list, done + rest);
        GatherIsSweep(h, all, done, g, rest);
      }
    }
  }

  lemma NextApart(done: seq<nat>, i: nat, rest: seq<nat>)
    requires Apart(done, [i] + rest)
    ensures Apart(done + [i], rest) && Apart(done, rest)
  {
    hide Once;
    OnceMore(i, rest);
    OnceMore(i, []);
    NoneTwice();
    assert [i] + [] == [i];
    OnceConcat(done, [i]);
  }
}
