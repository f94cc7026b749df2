/**
 What the last loop of Process (pkg/yang/modules.go) reports: every turn of a
 module reports each of its augments that is not applied by then.
 */
module LateReports {
  import opened Wrappers
  import opened Trees
  import opened Paths
  import opened Augments
  import opened Confluence
  import opened Notes
  import opened Supplies
  import opened Schedules
  import opened LateAugments
  import opened Remainders
  import opened Gathers
  import opened LateOrders

  // ---------------------------------------------------------------- logs

  function Said(log: Log, m: string): multiset<Error> {
    if m in log then log[m] else multiset{}
  }

  /** No entry is empty. */
  predicate Tidy(log: Log) {
    forall m :: m in log ==> log[m] != multiset{}
  }

  lemma SaidNote(log: Log, m: string, errors: multiset<Error>)
    requires Tidy(log)
    ensures Tidy(Note(log, m, errors))
    ensures forall n :: Said(Note(log, m, errors), n) == Said(log, n) + if n == m then errors else multiset{}
  {
  }

  lemma SameLogs(a: Log, b: Log)
    requires Tidy(a) && Tidy(b) && forall m :: Said(a, m) == Said(b, m)
    ensures a == b
  {
    forall m
      ensures m in a <==> m in b
      ensures m in a ==> a[m] == b[m]
    {
      assert Said(a, m) == Said(b, m);
    }
  }

  // ---------------------------------------------------------------- turn by turn

  /** What module `q` reports in the turns of `order`. */
  ghost function Reported(h: Forest, all: seq<Augment>, waiting: map<string, seq<nat>>, order: seq<string>, q: string)
    : multiset<Error>
    requires forall m :: m in order ==> m in waiting
    decreases |order|
  {
    if order == [] then multiset{}
    else
      Reported(h, all, waiting, order[..|order| - 1], q)
      + if order[|order| - 1] == q then Missed(all, Remaining(waiting[q], Late(h, all, {}, waiting, order)))
        else multiset{}
  }

  lemma LastTurnSays(h: Forest, all: seq<Augment>, waiting: map<string, seq<nat>>, mods: seq<string>, st: State,
                     m: string, q: string)
    requires Fair(h, all, waiting, mods) && Going(h, all, waiting, mods, st) && m in mods && m in waiting
    requires Tidy(st.log) && forall a :: a in all ==> !Lost(st.schema.Keys, a)
    ensures var next := LastTurn(st, all, m);
            && Tidy(next.log) && next.schema.Keys == st.schema.Keys
            && Said(next.log, q) == Said(st.log, q) + if m == q then Missed(all, next.waiting[m]) else multiset{}
  {
    hide Sweep, Lost, Missed, Note, After, Remaining, Once, NoClash, Everything, Separate, Said, Tidy;
    assert m in st.waiting;
    NoneLost(all, st.schema.Keys, st.waiting[m]);
    SweepKeys(st.schema, all, st.waiting[m]);
    var next := Turn(st, all, m);
    SaidNote(st.log, m, multiset{});
    SaidNote(next.log, m, Missed(all, next.waiting[m]));
    assert Said(st.log, q) + multiset{} == Said(st.log, q);
  }

  lemma {:induction false} SweepKeys(g: Forest, all: seq<Augment>, list: seq<nat>)
    ensures Sweep(g, all, list).schema.Keys == g.Keys
    decreases |list|
  {
    hide Target, Exists, MergedAt;
    if list != [] {
      var i := list[0];
      var x := if i < |all| then Target(g, all[i]) else None;
      if x.Some? { TargetThere(g, all[i]); }
      SweepKeys(if x.Some? then Applied(g, all[i], x.value) else g, all, list[1..]);
    }
  }

  lemma TargetThere(g: Forest, a: Augment)
    requires Target(g, a).Some?
    ensures Target(g, a).value.module_ in g
  {
  }

  /** The last loop notes for each module what `Reported` reads from names and bodies. */
  lemma {:induction false} RetryLog(h: Forest, all: seq<Augment>, waiting: map<string, seq<nat>>, mods: seq<string>,
                                    st: State, order: seq<string>, q: string)
    requires Fair(h, all, waiting, mods)
    requires (forall m :: m in order ==> m in mods) && forall m :: m in order ==> m in waiting
    requires st.schema == h && st.run == [] && st.waiting == waiting && st.log == map[]
    requires forall a :: a in all ==> !Lost(h.Keys, a)
    ensures var end := Retry(st, all, order);
            Tidy(end.log) && end.schema.Keys == h.Keys && Said(end.log, q) == Reported(h, all, waiting, order, q)
    decreases |order|
  {
    hide Fair, Going, Retry, LastTurn, Late, Lost, Missed;
    StartGoes(h, all, waiting, mods, st.mods, st.log);
    if order == [] {
      RetryNone(st, all);
    } else {
      var front, last := order[..|order| - 1], order[|order| - 1];
      assert order == front + [last];
      RetryLog(h, all, waiting, mods, st, front, q);
      RetryIsLate(h, all, waiting, mods, st, front);
      RetryIsLate(h, all, waiting, mods, st, order);
      RetrySnoc(st, all, front, last);
      var mid, end := Retry(st, all, front), Retry(st, all, order);
      LastTurnSays(h, all, waiting, mods, mid, last, q);
      GoingLeaves(h, all, waiting, mods, end, last);
    }
  }

  lemma GoingLeaves(h: Forest, all: seq<Augment>, waiting: map<string, seq<nat>>, mods: seq<string>, st: State,
                    q: string)
    requires Going(h, all, waiting, mods, st) && q in waiting
    ensures q in st.waiting && st.waiting[q] == Remaining(waiting[q], Members(st.run))
  {
  }

  // ---------------------------------------------------------------- the same in every order

  /** What `n` turns of module `q` report, one after the other, after the augments `js`. */
  ghost function Reports(h: Forest, all: seq<Augment>, js: set<nat>, waiting: map<string, seq<nat>>, q: string, n: nat)
    : multiset<Error>
    requires q in waiting
  {
    if n == 0 then multiset{}
    else
      Reports(h, all, js, waiting, q, n - 1)
      + Missed(all, Remaining(waiting[q], Turns(h, all, js, waiting[q], n)))
  }

  /** No turn of a module hangs on the others. */
  ghost predicate Steady(h: Forest, all: seq<Augment>, waiting: map<string, seq<nat>>, mods: seq<string>)
    requires forall m :: m in mods ==> m in waiting
  {
    forall q, t: nat :: q in mods && t <= multiset(mods)[q] ==> Even(h, all, waiting, mods, q, t)
  }

  lemma SteadyIsSettled(h: Forest, all: seq<Augment>, waiting: map<string, seq<nat>>, mods: seq<string>)
    requires (forall m :: m in mods ==> m in waiting) && Steady(h, all, waiting, mods)
    ensures Settled(h, all, waiting, mods)
  {
    hide Even;
  }

  /** Then the turns of any order report the same as each module's turns alone. */
  lemma {:induction false} SteadyReports(h: Forest, all: seq<Augment>, waiting: map<string, seq<nat>>,
                                         mods: seq<string>, order: seq<string>, q: string)
    requires Fair(h, all, waiting, mods) && forall m :: m in mods ==> m in waiting
    requires Steady(h, all, waiting, mods) && Part(order, mods) && q in mods
    requires forall m :: m in order ==> m in waiting
    ensures Reported(h, all, waiting, order, q) == Reports(h, all, {}, waiting, q, multiset(order)[q])
    decreases |order|
  {
    hide Fair, Steady, Part, Missed, Late, Turns, Remaining;
    if order != [] {
      var front, last := order[..|order| - 1], order[|order| - 1];
      PartFront(order, mods);
      CountSnoc(front, last, q);
      SteadyReports(h, all, waiting, mods, front, q);
      if last == q { SteadyTurn(h, all, waiting, mods, order, q); }
    }
  }

  lemma SteadyTurn(h: Forest, all: seq<Augment>, waiting: map<string, seq<nat>>, mods: seq<string>,
                   order: seq<string>, q: string)
    requires Fair(h, all, waiting, mods) && forall m :: m in mods ==> m in waiting
    requires Steady(h, all, waiting, mods) && Part(order, mods) && q in mods
    requires forall m :: m in order ==> m in waiting
    ensures Remaining(waiting[q], Late(h, all, {}, waiting, order))
         == Remaining(waiting[q], Turns(h, all, {}, waiting[q], multiset(order)[q]))
  {
    hide Fair, Settled, Late, Turns, Others, Remaining;
    var n := multiset(order)[q];
    SteadyIsSettled(h, all, waiting, mods);
    LateBelow(h, all, waiting, mods, order, q);
    LateCovers(h, all, {}, waiting, order, q);
    assert Even(h, all, waiting, mods, q, n);
    forall i | i in waiting[q]
      ensures i in Late(h, all, {}, waiting, order) <==> i in Turns(h, all, {}, waiting[q], n)
    {
      if i in Late(h, all, {}, waiting, order) {
        assert i in Takes(h, all, Others(h, all, waiting, mods, q), waiting, q, n);
      }
    }
    RemainingOf(waiting[q], Late(h, all, {}, waiting, order), Turns(h, all, {}, waiting[q], n));
  }

  /** A module without a turn reports nothing. */
  lemma {:induction false} NoneReported(h: Forest, all: seq<Augment>, waiting: map<string, seq<nat>>,
                                        order: seq<string>, q: string)
    requires (forall m :: m in order ==> m in waiting) && q !in order
    ensures Reported(h, all, waiting, order, q) == multiset{}
    decreases |order|
  {
    hide Late;
    if order != [] { NoneReported(h, all, waiting, order[..|order| - 1], q); }
  }

  lemma EndingSays(h: Forest, all: seq<Augment>, waiting: map<string, seq<nat>>, mods: seq<string>,
                   order: seq<string>, q: string)
    requires Fair(h, all, waiting, mods) && Arranged(order, mods) && forall a :: a in all ==> !Lost(h.Keys, a)
    requires forall m :: m in order ==> m in waiting
    ensures var end := Ending(h, all, waiting, order);
            && Tidy(end.log) && end.schema.Keys == h.Keys
            && Said(end.log, q) == Reported(h, all, waiting, order, q)
  {
    hide Fair, Arranged, Retry, Lost, Part, Tidy, Said, Reported;
    ArrangedHas(order, mods);
    RetryLog(h, all, waiting, mods, State(h, [], waiting, order, map[]), order, q);
  }

  /** Where no turn hangs on another module, every order reports the same. */
  lemma SameReports(h: Forest, all: seq<Augment>, waiting: map<string, seq<nat>>, mods: seq<string>,
                    order: seq<string>, other: seq<string>)
    requires Fair(h, all, waiting, mods) && forall m :: m in mods ==> m in waiting
    requires Steady(h, all, waiting, mods) && Arranged(order, mods) && Arranged(other, mods)
    requires forall a :: a in all ==> !Lost(h.Keys, a)
    ensures Ending(h, all, waiting, order).log == Ending(h, all, waiting, other).log
  {
    hide Fair, Steady, Arranged, Ending, Lost, Part, Reported, Reports, Tidy, Said;
    ArrangedHas(order, mods);
    ArrangedHas(other, mods);
    var a, b := Ending(h, all, waiting, order).log, Ending(h, all, waiting, other).log;
    EndingSays(h, all, waiting, mods, order, "");
    EndingSays(h, all, waiting, mods, other, "");
    forall m
      ensures Said(a, m) == Said(b, m)
    {
      EndingSays(h, all, waiting, mods, order, m);
      EndingSays(h, all, waiting, mods, other, m);
      if m in mods {
        SteadyReports(h, all, waiting, mods, order, m);
        SteadyReports(h, all, waiting, mods, other, m);
      } else {
        NoneReported(h, all, waiting, order, m);
        NoneReported(h, all, waiting, other, m);
      }
    }
    SameLogs(a, b);
  }

  // ---------------------------------------------------------------- different in some order

  /** How many augments of the list are not among `js`. */
  function Open(all: seq<Augment>, list: seq<nat>, js: set<nat>): nat {
    if list == [] then 0
    else (if list[0] < |all| && list[0] !in js then 1 else 0) + Open(all, list[1..], js)
  }

  lemma {:induction false} MissedFirst(all: seq<Augment>, i: nat, rest: seq<nat>)
    ensures Missed(all, [i] + rest)
         == (if i < |all| then multiset{NotFound(all[i].name)} else multiset{}) + Missed(all, rest)
    decreases |rest|
  {
    if rest == [] {
      assert [i] + rest == [i] && [i][..0] == [];
    } else {
      var front, w := rest[..|rest| - 1], [i] + rest;
      assert w[..|w| - 1] == [i] + front && w[|w| - 1] == rest[|rest| - 1];
      MissedFirst(all, i, front);
    }
  }

  lemma {:induction false} MissedCount(all: seq<Augment>, list: seq<nat>, js: set<nat>)
    ensures |Missed(all, Remaining(list, js))| == Open(all, list, js)
    decreases |list|
  {
    hide Missed;
    if list == [] {
      assert Missed(all, []) == multiset{} by { MissedNone(all); }
    } else {
      var i, rest := list[0], Remaining(list[1..], js);
      MissedCount(all, list[1..], js);
      if i in js {
        assert [] + rest == rest;
      } else {
        MissedFirst(all, i, rest);
      }
    }
  }

  lemma MissedNone(all: seq<Augment>)
    ensures Missed(all, []) == multiset{}
  {
  }

  lemma {:induction false} OpenLess(all: seq<Augment>, list: seq<nat>, js: set<nat>, more: set<nat>, i: nat)
    requires js <= more
    ensures Open(all, list, more) <= Open(all, list, js)
    ensures i in list && i < |all| && i in more && i !in js ==> Open(all, list, more) < Open(all, list, js)
    decreases |list|
  {
    if list != [] {
      assert list == [list[0]] + list[1..];
      OpenLess(all, list[1..], js, more, i);
    }
  }

  /** Turns with more applied before report no more; less if one of them takes an augment earlier. */
  lemma {:induction false} ReportsLess(h: Forest, all: seq<Augment>, js: set<nat>, waiting: map<string, seq<nat>>,
                                       q: string, n: nat, t: nat, i: nat)
    requires q in waiting
    ensures |Reports(h, all, js, waiting, q, n)| <= |Reports(h, all, {}, waiting, q, n)|
    ensures 0 < t <= n && i in waiting[q] && i < |all|
            && i in Turns(h, all, js, waiting[q], t) && i !in Turns(h, all, {}, waiting[q], t) ==>
              |Reports(h, all, js, waiting, q, n)| < |Reports(h, all, {}, waiting, q, n)|
    decreases n
  {
    hide Turns, Missed, Remaining;
    if n > 0 {
      var list := waiting[q];
      ReportsLess(h, all, js, waiting, q, n - 1, t, i);
      TurnsMore(h, all, {}, js, list, n);
      MissedCount(all, list, Turns(h, all, {}, list, n));
      MissedCount(all, list, Turns(h, all, js, list, n));
      OpenLess(all, list, Turns(h, all, {}, list, n), Turns(h, all, js, list, n), i);
    }
  }

  /** Turns of other modules later on report nothing for `q`. */
  lemma {:induction false} ReportedBefore(h: Forest, all: seq<Augment>, waiting: map<string, seq<nat>>,
                                          a: seq<string>, b: seq<string>, q: string)
    requires (forall m :: m in a ==> m in waiting) && (forall m :: m in b ==> m in waiting) && q !in b
    ensures forall m :: m in a + b ==> m in waiting
    ensures Reported(h, all, waiting, a + b, q) == Reported(h, all, waiting, a, q)
    decreases |b|
  {
    hide Late, Missed, Remaining;
    if b == [] {
      assert a + b == a;
    } else {
      var w := a + b;
      assert w[..|w| - 1] == a + b[..|b| - 1] && w[|w| - 1] == b[|b| - 1];
      ReportedBefore(h, all, waiting, a, b[..|b| - 1], q);
      assert Reported(h, all, waiting, a, q) + multiset{} == Reported(h, all, waiting, a, q);
    }
  }

  /** All turns of `q` on end. */
  lemma {:induction false} ReportedOnEnd(h: Forest, all: seq<Augment>, waiting: map<string, seq<nat>>,
                                         a: seq<string>, q: string, n: nat)
    requires (forall m :: m in a ==> m in waiting) && q in waiting && q !in a
    ensures forall m :: m in a + Repeat(q, n) ==> m in waiting
    ensures Reported(h, all, waiting, a + Repeat(q, n), q)
         == Reports(h, all, Late(h, all, {}, waiting, a), waiting, q, n)
    decreases n
  {
    hide Late, Turns, Missed, Remaining;
    LateRepeat(h, all, Late(h, all, {}, waiting, a), waiting, q, n);
    LateConcat(h, all, {}, waiting, a, Repeat(q, n));
    if n == 0 {
      assert a + Repeat(q, 0) == a;
      NoneReported(h, all, waiting, a, q);
    } else {
      var w := a + Repeat(q, n);
      assert w[..|w| - 1] == a + Repeat(q, n - 1) && w[|w| - 1] == q;
      ReportedOnEnd(h, all, waiting, a, q, n - 1);
    }
  }

  /** Where a turn hangs on other modules, its module reports more when it comes first than when it comes last. */
  lemma HangingReports(h: Forest, all: seq<Augment>, waiting: map<string, seq<nat>>, mods: seq<string>, q: string,
                       t: nat)
    requires Fair(h, all, waiting, mods) && q in mods && t <= multiset(mods)[q]
    requires !Even(h, all, waiting, mods, q, t)
    ensures forall m :: m in First(mods, q) ==> m in waiting
    ensures forall m :: m in Last(mods, q) ==> m in waiting
    ensures |Reported(h, all, waiting, Last(mods, q), q)| < |Reported(h, all, waiting, First(mods, q), q)|
  {
    hide Fair, Late, Turns, Others, Rest, Repeat, Reports, Reported, Arranged;
    FairMods(h, all, waiting, mods);
    var n, rest := multiset(mods)[q], Rest(mods, q);
    TwoArranged(mods, q);
    ReportedOnEnd(h, all, waiting, [], q, n);
    assert [] + Repeat(q, n) == Repeat(q, n);
    LateNone(h, all, {}, waiting);
    ReportedBefore(h, all, waiting, Repeat(q, n), rest, q);
    ReportedOnEnd(h, all, waiting, rest, q, n);
    LateLast(h, all, waiting, mods, q, t);
    TakesMore(h, all, waiting, mods, q, t);
    var js, before := Others(h, all, waiting, mods, q), Late(h, all, {}, waiting, rest);
    var i :| i in Takes(h, all, js, waiting, q, t) && i !in Takes(h, all, {}, waiting, q, t);
    TurnsWithin(h, all, before, waiting[q], t);
    LateWithin(h, all, {}, waiting, rest, i);
    if t == 0 { HangingNow(h, all, waiting, mods, q, i); }
    ReportsLess(h, all, before, waiting, q, n, t, i);
  }

  lemma LateNone(h: Forest, all: seq<Augment>, js: set<nat>, waiting: map<string, seq<nat>>)
    ensures Late(h, all, js, waiting, []) == js
  {
  }

  /** Before its first turn nothing of a module hangs on others. */
  lemma HangingNow(h: Forest, all: seq<Augment>, waiting: map<string, seq<nat>>, mods: seq<string>, q: string, i: nat)
    requires Fair(h, all, waiting, mods) && q in mods
    ensures i !in Takes(h, all, Others(h, all, waiting, mods, q), waiting, q, 0)
  {
    hide NoClash, Everything;
  }

  /** Any two orders of the turns report the same in the last loop. */
  ghost predicate AnyOrderReports(h: Forest, all: seq<Augment>, waiting: map<string, seq<nat>>, mods: seq<string>) {
    forall order, other :: Arranged(order, mods) && Arranged(other, mods) ==>
      Ending(h, all, waiting, order).log == Ending(h, all, waiting, other).log
  }

  /**
   Where no augments clash: the last loop reports the same for every order of
   the turns if and only if no turn of a module hangs on the others.
   */
  lemma ReportsAreExact(h: Forest, all: seq<Augment>, waiting: map<string, seq<nat>>, mods: seq<string>)
    requires Fair(h, all, waiting, mods) && forall m :: m in mods ==> m in waiting
    requires forall a :: a in all ==> !Lost(h.Keys, a)
    ensures AnyOrderReports(h, all, waiting, mods) <==> Steady(h, all, waiting, mods)
  {
    hide Fair, Even, Ending, Arranged, Reported, Lost, First, Last, Tidy, Said, Rest;
    if Steady(h, all, waiting, mods) {
      forall order, other | Arranged(order, mods) && Arranged(other, mods)
        ensures Ending(h, all, waiting, order).log == Ending(h, all, waiting, other).log
      {
        SameReports(h, all, waiting, mods, order, other);
      }
    } else {
      var q, t: nat :| q in mods && t <= multiset(mods)[q] && !Even(h, all, waiting, mods, q, t);
      HangingReports(h, all, waiting, mods, q, t);
      TwoArranged(mods, q);
      var a, b := First(mods, q), Last(mods, q);
      EndingSays(h, all, waiting, mods, a, q);
      EndingSays(h, all, waiting, mods, b, q);
      assert Ending(h, all, waiting, a).log != Ending(h, all, waiting, b).log;
    }
  }

  // ---------------------------------------------------------------- reported and applied

  /** The names of the list are all different. */
  predicate OwnNames(all: seq<Augment>, list: seq<nat>) {
    forall i, j :: i in list && j in list && i < |all| && j < |all| && i != j ==> all[i].name != all[j].name
  }

  lemma {:induction false} MissedHas(all: seq<Augment>, list: seq<nat>, e: Error)
    ensures e in Missed(all, list) <==> exists i :: i in list && i < |all| && e == NotFound(all[i].name)
    decreases |list|
  {
    if list != [] {
      var front, last := list[..|list| - 1], list[|list| - 1];
      assert list == front + [last];
      MissedHas(all, front, e);
    }
  }

  lemma MissedName(all: seq<Augment>, list: seq<nat>, js: set<nat>, i: nat)
    requires i in list && i < |all| && OwnNames(all, list)
    ensures NotFound(all[i].name) in Missed(all, Remaining(list, js)) <==> i !in js
  {
    hide Missed, Remaining;
    MissedHas(all, Remaining(list, js), NotFound(all[i].name));
    RemainingHas(list, js);
  }

  /** Later turns of a module report nothing more of what was applied. */
  lemma {:induction false} ReportedOnce(h: Forest, all: seq<Augment>, waiting: map<string, seq<nat>>,
                                        a: seq<string>, b: seq<string>, q: string, i: nat)
    requires (forall m :: m in a ==> m in waiting) && (forall m :: m in b ==> m in waiting) && q in waiting
    requires i in waiting[q] && i < |all| && OwnNames(all, waiting[q])
    ensures forall m :: m in a + b ==> m in waiting
    ensures var e := NotFound(all[i].name);
            && (e in Reported(h, all, waiting, a, q) ==> e in Reported(h, all, waiting, a + b, q))
            && (i in Late(h, all, {}, waiting, a) && e in Reported(h, all, waiting, a + b, q) ==>
                  e in Reported(h, all, waiting, a, q))
    decreases |b|
  {
    hide Late, Missed, Remaining, OwnNames;
    if b == [] {
      assert a + b == a;
    } else {
      var w := a + b;
      assert w[..|w| - 1] == a + b[..|b| - 1] && w[|w| - 1] == b[|b| - 1];
      ReportedOnce(h, all, waiting, a, b[..|b| - 1], q, i);
      MissedName(all, waiting[q], Late(h, all, {}, waiting, w), i);
      LateConcat(h, all, {}, waiting, a, b);
      LateWithin(h, all, Late(h, all, {}, waiting, a), waiting, b, i);
    }
  }

  /**
   An augment is reported exactly if the first turn of its module leaves it,
   whether it is applied later on or not.
   */
  lemma FirstTurnReports(h: Forest, all: seq<Augment>, waiting: map<string, seq<nat>>, mods: seq<string>,
                         a: seq<string>, q: string, b: seq<string>, i: nat)
    requires Fair(h, all, waiting, mods) && Arranged(a + [q] + b, mods) && q !in a
    requires forall x :: x in all ==> !Lost(h.Keys, x)
    requires q in waiting && i in waiting[q] && i < |all| && OwnNames(all, waiting[q])
    ensures NotFound(all[i].name) in Said(Ending(h, all, waiting, a + [q] + b).log, q)
       <==> i !in Ending(h, all, waiting, a + [q]).run
  {
    hide Fair, Late, Missed, Remaining, Arranged, Lost, OwnNames, Going, Tidy, Said, Retry, Part;
    var order, e := a + [q] + b, NotFound(all[i].name);
    FairMods(h, all, waiting, mods);
    ArrangedHas(order, mods);
    assert forall m :: m in a + [q] ==> m in order;
    assert forall m :: m in b ==> m in order;
    assert forall m :: m in order ==> m in waiting;
    EndingSays(h, all, waiting, mods, order, q);
    EndingIsLate(h, all, waiting, mods, a + [q]);
    assert i in Members(Ending(h, all, waiting, a + [q]).run) <==> i in Ending(h, all, waiting, a + [q]).run;
    NoneReported(h, all, waiting, a, q);
    assert (a + [q])[..|a|] == a;
    MissedName(all, waiting[q], Late(h, all, {}, waiting, a + [q]), i);
    ReportedOnce(h, all, waiting, a + [q], b, q, i);
  }
}
