/**
 When the order of the modules in the last loop of Process (pkg/yang/modules.go)
 matters, though no augments clash. A module with a revision is entered under
 two names and has two turns.
 */
module LateOrders {
  import opened Wrappers
  import opened Trees
  import opened Paths
  import opened Augments
  import opened Confluence
  import opened Notes
  import opened Supplies
  import opened Schedules
  import opened LateAugments
  import opened Remainders
  import opened Gathers

  /** The augments applied after `js` and one turn of each module of `order`, a module as often as it occurs. */
  ghost function Late(h: Forest, all: seq<Augment>, js: set<nat>, waiting: map<string, seq<nat>>, order: seq<string>)
    : set<nat>
    requires forall m :: m in order ==> m in waiting
    decreases |order|
  {
    if order == [] then js
    else Gather(h, all, Late(h, all, js, waiting, order[..|order| - 1]), waiting[order[|order| - 1]])
  }

  /** The augments of module `m` that its first `t` turns take when the augments `js` are applied before. */
  ghost function Takes(h: Forest, all: seq<Augment>, js: set<nat>, waiting: map<string, seq<nat>>, m: string, t: nat)
    : set<nat>
    requires m in waiting
  {
    Turns(h, all, js, waiting[m], t) * Members(waiting[m])
  }

  /** What the other modules take, each with all its turns first. */
  ghost function Others(h: Forest, all: seq<Augment>, waiting: map<string, seq<nat>>, mods: seq<string>, q: string)
    : set<nat>
    requires forall m :: m in mods ==> m in waiting
  {
    set m, i | m in mods && m != q && i in Takes(h, all, {}, waiting, m, multiset(mods)[m]) :: i
  }

  /** The first `t` turns of module `q` take the same whether all the other modules come before or none. */
  ghost predicate Even(h: Forest, all: seq<Augment>, waiting: map<string, seq<nat>>, mods: seq<string>, q: string,
                       t: nat)
    requires (forall m :: m in mods ==> m in waiting) && q in mods
  {
    Takes(h, all, Others(h, all, waiting, mods, q), waiting, q, t) == Takes(h, all, {}, waiting, q, t)
  }

  /** All turns of a module together do not hang on the other modules. */
  ghost predicate Settled(h: Forest, all: seq<Augment>, waiting: map<string, seq<nat>>, mods: seq<string>)
    requires forall m :: m in mods ==> m in waiting
  {
    forall q :: q in mods ==> Even(h, all, waiting, mods, q, multiset(mods)[q])
  }

  /** All the augments of the modules of `order`. */
  function Everything(waiting: map<string, seq<nat>>, order: seq<string>): seq<nat>
    requires forall m :: m in order ==> m in waiting
    decreases |order|
  {
    if order == [] then [] else Everything(waiting, order[..|order| - 1]) + waiting[order[|order| - 1]]
  }

  /** Each module has its own augments, and no two of those of the modules left clash. */
  ghost predicate Fair(h: Forest, all: seq<Augment>, waiting: map<string, seq<nat>>, mods: seq<string>) {
    && (forall m :: m in mods ==> m in waiting) && Separate(waiting)
    && NoClash(h, all, Everything(waiting, mods))
  }

  lemma FairMods(h: Forest, all: seq<Augment>, waiting: map<string, seq<nat>>, mods: seq<string>)
    requires Fair(h, all, waiting, mods)
    ensures (forall m :: m in mods ==> m in waiting) && Separate(waiting)
  {
  }

  lemma {:induction false} EverythingHas(waiting: map<string, seq<nat>>, order: seq<string>, i: nat)
    requires forall m :: m in order ==> m in waiting
    ensures i in Everything(waiting, order) <==> exists m :: m in order && i in waiting[m]
    decreases |order|
  {
    if order != [] {
      var front, last := order[..|order| - 1], order[|order| - 1];
      assert order == front + [last];
      EverythingHas(waiting, front, i);
    }
  }

  // ---------------------------------------------------------------- the loop on states

  /** The state after the last loop over the modules of `order`. */
  ghost function Ending(h: Forest, all: seq<Augment>, waiting: map<string, seq<nat>>, order: seq<string>): State {
    Retry(State(h, [], waiting, order, map[]), all, order)
  }

  lemma {:induction false} RetrySnoc(st: State, all: seq<Augment>, order: seq<string>, q: string)
    requires (forall m :: m in order ==> m in st.waiting) && q in st.waiting
    ensures var mid := Retry(st, all, order);
            mid.waiting.Keys == st.waiting.Keys && Retry(st, all, order + [q]) == LastTurn(mid, all, q)
    decreases |order|
  {
    hide Sweep, Note, Tried, Missed;
    if order == [] {
      assert [] + [q] == [q] && [q][1..] == [];
    } else {
      assert (order + [q])[0] == order[0] && (order + [q])[1..] == order[1..] + [q];
      RetrySnoc(LastTurn(st, all, order[0]), all, order[1..], q);
    }
  }

  /** The state follows a run of augments of the modules `mods`, and its lists hold what the run leaves. */
  ghost predicate Going(h: Forest, all: seq<Augment>, waiting: map<string, seq<nat>>, mods: seq<string>, st: State) {
    && After(h, all, st.run) == Some(st.schema) && Keeps(waiting, st)
    && forall i :: i in st.run ==> exists m :: m in mods && m in waiting && i in waiting[m]
  }

  lemma GoingKeeps(h: Forest, all: seq<Augment>, waiting: map<string, seq<nat>>, mods: seq<string>, st: State)
    requires Going(h, all, waiting, mods, st)
    ensures st.waiting.Keys == waiting.Keys && Once(st.run) && Keeps(waiting, st)
    ensures After(h, all, st.run) == Some(st.schema)
  {
  }

  /** One turn more applies what the names and bodies say. */
  lemma LastTurnGoes(h: Forest, all: seq<Augment>, waiting: map<string, seq<nat>>, mods: seq<string>, st: State,
                     q: string)
    requires Fair(h, all, waiting, mods) && Going(h, all, waiting, mods, st) && q in mods && q in st.waiting
    ensures var next := LastTurn(st, all, q);
            Going(h, all, waiting, mods, next) && Members(next.run) == Gather(h, all, Members(st.run), waiting[q])
  {
    hide Sweep, Note, Tried, Missed, After, NoClash, Once, Gather, Remaining, Separate, Everything;
    var list, js := st.waiting[q], Members(st.run);
    KeepsKeys(waiting, st);
    assert list == Remaining(waiting[q], js);
    RemainingHas(waiting[q], js);
    SeparateLists(waiting, q);
    assert Apart(st.run, list);
    forall i | i in st.run + list
      ensures i in Everything(waiting, mods)
    {
      EverythingHas(waiting, mods, i);
    }
    NoClashPart(h, all, Everything(waiting, mods), st.run + list);
    GatherIsSweep(h, all, st.run, st.schema, list);
    GatherRemaining(h, all, js, waiting[q], js);
    SweepParts(st.schema, all, list);
    TurnKeeps(waiting, st, all, q);
    OtherModules(waiting, Turn(st, all, q), LastTurn(st, all, q));
  }

  lemma SeparateLists(waiting: map<string, seq<nat>>, q: string)
    requires Separate(waiting) && q in waiting
    ensures Once(waiting[q])
  {
  }

  /** The last loop applies just the augments that `Late` reads from names and bodies, a module listed twice or not. */
  lemma {:induction false} RetryIsLate(h: Forest, all: seq<Augment>, waiting: map<string, seq<nat>>, mods: seq<string>,
                                       st: State, order: seq<string>)
    requires Fair(h, all, waiting, mods) && Going(h, all, waiting, mods, st)
    requires (forall m :: m in order ==> m in mods) && forall m :: m in order ==> m in waiting
    ensures var end := Retry(st, all, order);
            && Going(h, all, waiting, mods, end)
            && Members(end.run) == Late(h, all, Members(st.run), waiting, order)
    decreases |order|
  {
    hide Fair, Going, Retry, LastTurn, Gather;
    if order == [] {
      RetryNone(st, all);
    } else {
      var front, last := order[..|order| - 1], order[|order| - 1];
      assert order == front + [last];
      GoingKeeps(h, all, waiting, mods, st);
      RetryIsLate(h, all, waiting, mods, st, front);
      RetrySnoc(st, all, front, last);
      LastTurnGoes(h, all, waiting, mods, Retry(st, all, front), last);
    }
  }

  lemma RetryNone(st: State, all: seq<Augment>)
    ensures Retry(st, all, []) == st
  {
  }

  lemma StartGoes(h: Forest, all: seq<Augment>, waiting: map<string, seq<nat>>, mods: seq<string>, order: seq<string>,
                  log: Log)
    ensures Going(h, all, waiting, mods, State(h, [], waiting, order, log)) && Members([]) == {}
  {
    hide Keeps, After;
    StartKeeps(h, waiting, order, log);
    AfterNothing(h, all);
  }

  lemma EndingIsLate(h: Forest, all: seq<Augment>, waiting: map<string, seq<nat>>, mods: seq<string>,
                     order: seq<string>)
    requires Fair(h, all, waiting, mods)
    requires (forall m :: m in order ==> m in mods) && forall m :: m in order ==> m in waiting
    ensures var end := Ending(h, all, waiting, order);
            Going(h, all, waiting, mods, end) && Members(end.run) == Late(h, all, {}, waiting, order)
  {
    hide Fair, Going, Retry, Late;
    StartGoes(h, all, waiting, mods, order, map[]);
    RetryIsLate(h, all, waiting, mods, State(h, [], waiting, order, map[]), order);
  }

  // ---------------------------------------------------------------- bounds for every order

  lemma {:induction false} LateConcat(h: Forest, all: seq<Augment>, js: set<nat>, waiting: map<string, seq<nat>>,
                                      a: seq<string>, b: seq<string>)
    requires (forall m :: m in a ==> m in waiting) && forall m :: m in b ==> m in waiting
    ensures forall m :: m in a + b ==> m in waiting
    ensures Late(h, all, js, waiting, a + b) == Late(h, all, Late(h, all, js, waiting, a), waiting, b)
    decreases |b|
  {
    hide Gather;
    if b == [] {
      assert a + b == a;
    } else {
      var front, last := b[..|b| - 1], b[|b| - 1];
      assert (a + b)[..|a + b| - 1] == a + front && (a + b)[|a + b| - 1] == last;
      LateConcat(h, all, js, waiting, a, front);
    }
  }

  /** Only the modules of `order` add augments, each its own. */
  lemma {:induction false} LateWithin(h: Forest, all: seq<Augment>, js: set<nat>, waiting: map<string, seq<nat>>,
                                      order: seq<string>, i: nat)
    requires forall m :: m in order ==> m in waiting
    ensures js <= Late(h, all, js, waiting, order)
    ensures i in Late(h, all, js, waiting, order) ==>
              i in js || (i < |all| && exists m :: m in order && i in waiting[m])
    decreases |order|
  {
    hide Gather;
    if order != [] {
      var front, last := order[..|order| - 1], order[|order| - 1];
      assert order == front + [last];
      LateWithin(h, all, js, waiting, front, i);
      GatherWithin(h, all, Late(h, all, js, waiting, front), waiting[last]);
    }
  }

  lemma CountSnoc(front: seq<string>, last: string, m: string)
    ensures multiset(front + [last])[m] == multiset(front)[m] + if m == last then 1 else 0
  {
  }

  /** In any order a module takes at least what as many turns of it take coming first. */
  lemma {:induction false} LateCovers(h: Forest, all: seq<Augment>, js: set<nat>, waiting: map<string, seq<nat>>,
                                      order: seq<string>, m: string)
    requires (forall n :: n in order ==> n in waiting) && m in waiting
    ensures Turns(h, all, js, waiting[m], multiset(order)[m]) <= Late(h, all, js, waiting, order)
    decreases |order|
  {
    hide Gather;
    if order != [] {
      var front, last := order[..|order| - 1], order[|order| - 1];
      assert order == front + [last];
      CountSnoc(front, last, m);
      LateCovers(h, all, js, waiting, front, m);
      var before, t := Late(h, all, js, waiting, front), multiset(front)[m];
      GatherWithin(h, all, before, waiting[last]);
      if m == last { GatherMore(h, all, Turns(h, all, js, waiting[m], t), before, waiting[m]); }
    }
  }

  /** The modules of `order` have no more turns than those of `mods`. */
  ghost predicate Part(order: seq<string>, mods: seq<string>) {
    forall m :: multiset(order)[m] <= multiset(mods)[m]
  }

  lemma PartHas(order: seq<string>, mods: seq<string>)
    requires Part(order, mods)
    ensures forall m :: m in order ==> m in mods
  {
    forall m | m in order
      ensures m in mods
    {
      CountHas(order, m);
      CountHas(mods, m);
    }
  }

  lemma PartFront(order: seq<string>, mods: seq<string>)
    requires Part(order, mods) && order != []
    ensures var front, last := order[..|order| - 1], order[|order| - 1];
            && Part(front, mods) && order == front + [last] && multiset(front)[last] < multiset(mods)[last]
  {
    var front, last := order[..|order| - 1], order[|order| - 1];
    assert order == front + [last];
    forall m
      ensures multiset(front)[m] + (if m == last then 1 else 0) <= multiset(mods)[m]
    {
      CountSnoc(front, last, m);
    }
  }

  /** Where all is settled, a module takes no more than as many turns of it take after all the others. */
  lemma {:induction false} LateBelow(h: Forest, all: seq<Augment>, waiting: map<string, seq<nat>>, mods: seq<string>,
                                     order: seq<string>, q: string)
    requires Fair(h, all, waiting, mods) && Settled(h, all, waiting, mods) && q in mods
    requires Part(order, mods) && forall m :: m in order ==> m in waiting
    ensures Late(h, all, {}, waiting, order)
         <= Turns(h, all, Others(h, all, waiting, mods, q), waiting[q], multiset(order)[q])
    decreases |order|
  {
    hide Gather, Fair, Settled, Others, Part;
    FairMods(h, all, waiting, mods);
    if order != [] {
      var front, last := order[..|order| - 1], order[|order| - 1];
      PartFront(order, mods);
      CountSnoc(front, last, q);
      PartHas(order, mods);
      var before, t := Late(h, all, {}, waiting, front), multiset(front)[q];
      LateBelow(h, all, waiting, mods, front, q);
      if q == last {
        GatherMore(h, all, before, Turns(h, all, Others(h, all, waiting, mods, q), waiting[q], t), waiting[q]);
      } else {
        LateBelow(h, all, waiting, mods, front, last);
        OthersTurn(h, all, waiting, mods, before, last, multiset(front)[last], q);
        TurnsWithin(h, all, Others(h, all, waiting, mods, q), waiting[q], t);
      }
    }
  }

  /** What a turn of another module adds is among what that module takes first. */
  lemma OthersTurn(h: Forest, all: seq<Augment>, waiting: map<string, seq<nat>>, mods: seq<string>, before: set<nat>,
                   m: string, t: nat, q: string)
    requires Fair(h, all, waiting, mods) && Settled(h, all, waiting, mods) && m in mods && q != m
    requires t < multiset(mods)[m] && before <= Turns(h, all, Others(h, all, waiting, mods, m), waiting[m], t)
    ensures Gather(h, all, before, waiting[m]) <= before + Others(h, all, waiting, mods, q)
  {
    hide Gather, NoClash, Everything, Separate;
    var js, list, n := Others(h, all, waiting, mods, m), waiting[m], multiset(mods)[m];
    GatherMore(h, all, before, Turns(h, all, js, list, t), list);
    TurnsLater(h, all, js, list, t + 1, n);
    GatherWithin(h, all, before, list);
    assert Even(h, all, waiting, mods, m, n);
    forall i | i in Gather(h, all, before, list) && i !in before
      ensures i in Others(h, all, waiting, mods, q)
    {
      assert i in Takes(h, all, js, waiting, m, n);
    }
  }

  // ---------------------------------------------------------------- orders of the same turns

  predicate Arranged(order: seq<string>, mods: seq<string>) {
    multiset(order) == multiset(mods)
  }

  lemma ArrangedHas(order: seq<string>, mods: seq<string>)
    requires Arranged(order, mods)
    ensures (forall m :: m in order <==> m in mods) && Part(order, mods)
    ensures forall m :: multiset(order)[m] == multiset(mods)[m]
  {
    forall m
      ensures m in order <==> m in mods
    {
      CountHas(order, m);
      CountHas(mods, m);
    }
  }

  /** `n` turns of module `q`. */
  function Repeat(q: string, n: nat): seq<string> {
    if n == 0 then [] else Repeat(q, n - 1) + [q]
  }

  /** The modules other than `q`, each as often as before. */
  function Rest(mods: seq<string>, q: string): seq<string>
    decreases |mods|
  {
    if mods == [] then []
    else
      var front, last := mods[..|mods| - 1], mods[|mods| - 1];
      Rest(front, q) + if last == q then [] else [last]
  }

  lemma {:induction false} RepeatCount(q: string, n: nat, m: string)
    ensures multiset(Repeat(q, n))[m] == if m == q then n else 0
  {
    if n > 0 {
      RepeatCount(q, n - 1, m);
      CountSnoc(Repeat(q, n - 1), q, m);
    }
  }

  lemma {:induction false} RestCount(mods: seq<string>, q: string, m: string)
    ensures multiset(Rest(mods, q))[m] == if m == q then 0 else multiset(mods)[m]
    decreases |mods|
  {
    if mods != [] {
      var front, last := mods[..|mods| - 1], mods[|mods| - 1];
      assert mods == front + [last];
      RestCount(front, q, m);
      CountSnoc(front, last, m);
      CountSnoc(Rest(front, q), last, m);
      assert Rest(front, q) + [] == Rest(front, q);
    }
  }

  /** All turns of `q` first, and all of them last. */
  function First(mods: seq<string>, q: string): seq<string> {
    Repeat(q, multiset(mods)[q]) + Rest(mods, q)
  }

  function Last(mods: seq<string>, q: string): seq<string> {
    Rest(mods, q) + Repeat(q, multiset(mods)[q])
  }

  lemma TwoArranged(mods: seq<string>, q: string)
    ensures Arranged(First(mods, q), mods) && Arranged(Last(mods, q), mods)
    ensures q !in Rest(mods, q) && forall m :: m in Rest(mods, q) ==> m in mods
    ensures forall m :: m in Repeat(q, multiset(mods)[q]) ==> m in mods
  {
    hide Repeat, Rest, Arranged;
    var a, b := Repeat(q, multiset(mods)[q]), Rest(mods, q);
    forall m
      ensures multiset(a)[m] + multiset(b)[m] == multiset(mods)[m]
      ensures m in a ==> m in mods
      ensures m in b ==> m in mods && m != q
    {
      RepeatCount(q, multiset(mods)[q], m);
      RestCount(mods, q, m);
      CountHas(a, m);
      CountHas(b, m);
      CountHas(mods, m);
    }
    Counted(a, b, mods);
    Counted(b, a, mods);
  }

  lemma CountHas(mods: seq<string>, m: string)
    ensures m in mods <==> multiset(mods)[m] > 0
  {
    assert m in mods <==> m in multiset(mods);
  }

  lemma Counted(a: seq<string>, b: seq<string>, mods: seq<string>)
    requires forall m :: multiset(a)[m] + multiset(b)[m] == multiset(mods)[m]
    ensures Arranged(a + b, mods)
  {
    assert multiset(a + b) == multiset(a) + multiset(b);
  }

  lemma {:induction false} LateRepeat(h: Forest, all: seq<Augment>, js: set<nat>, waiting: map<string, seq<nat>>,
                                      q: string, n: nat)
    requires q in waiting
    ensures forall m :: m in Repeat(q, n) ==> m in waiting
    ensures Late(h, all, js, waiting, Repeat(q, n)) == Turns(h, all, js, waiting[q], n)
    decreases n
  {
    hide Gather;
    if n > 0 {
      LateRepeat(h, all, js, waiting, q, n - 1);
      var order := Repeat(q, n);
      assert order[..|order| - 1] == Repeat(q, n - 1);
    }
  }

  /** With all its turns first, a module takes just what it takes alone. */
  lemma LateFirst(h: Forest, all: seq<Augment>, waiting: map<string, seq<nat>>, mods: seq<string>, q: string, i: nat)
    requires Fair(h, all, waiting, mods) && q in mods
    requires forall m :: m in First(mods, q) ==> m in waiting
    ensures i in Late(h, all, {}, waiting, First(mods, q)) && i in waiting[q] ==>
              i in Takes(h, all, {}, waiting, q, multiset(mods)[q])
  {
    hide Late, Turns, NoClash, Repeat, Rest, Everything;
    var n, rest := multiset(mods)[q], Rest(mods, q);
    TwoArranged(mods, q);
    LateRepeat(h, all, {}, waiting, q, n);
    LateConcat(h, all, {}, waiting, Repeat(q, n), rest);
    LateWithin(h, all, Late(h, all, {}, waiting, Repeat(q, n)), waiting, rest, i);
  }

  /** With all its turns last, it takes at least what it takes after the others. */
  lemma LateLast(h: Forest, all: seq<Augment>, waiting: map<string, seq<nat>>, mods: seq<string>, q: string, t: nat)
    requires Fair(h, all, waiting, mods) && q in mods
    requires (forall m :: m in Rest(mods, q) ==> m in waiting) && forall m :: m in Last(mods, q) ==> m in waiting
    ensures var before := Late(h, all, {}, waiting, Rest(mods, q));
            && Turns(h, all, Others(h, all, waiting, mods, q), waiting[q], t) <= Turns(h, all, before, waiting[q], t)
            && Late(h, all, {}, waiting, Last(mods, q)) == Turns(h, all, before, waiting[q], multiset(mods)[q])
  {
    hide Late, Turns, NoClash, Repeat, Rest, Everything;
    var n, rest := multiset(mods)[q], Rest(mods, q);
    TwoArranged(mods, q);
    var before := Late(h, all, {}, waiting, rest);
    forall m, i | m in mods && m != q && i in Takes(h, all, {}, waiting, m, multiset(mods)[m])
      ensures i in before
    {
      RestCount(mods, q, m);
      LateCovers(h, all, {}, waiting, rest, m);
    }
    TurnsMore(h, all, Others(h, all, waiting, mods, q), before, waiting[q], t);
    LateConcat(h, all, {}, waiting, rest, Repeat(q, n));
    LateRepeat(h, all, before, waiting, q, n);
  }

  /** After more augments its turns take no less. */
  lemma TakesMore(h: Forest, all: seq<Augment>, waiting: map<string, seq<nat>>, mods: seq<string>, q: string, t: nat)
    requires (forall m :: m in mods ==> m in waiting) && q in mods
    ensures Takes(h, all, {}, waiting, q, t) <= Takes(h, all, Others(h, all, waiting, mods, q), waiting, q, t)
  {
    hide Turns, Others;
    TurnsMore(h, all, {}, Others(h, all, waiting, mods, q), waiting[q], t);
  }

  /**
   Where all turns of a module hang on others, one of its augments is applied
   when it comes last, and not when it comes first.
   */
  lemma HangingDepends(h: Forest, all: seq<Augment>, waiting: map<string, seq<nat>>, mods: seq<string>, q: string)
    returns (first: seq<string>, last: seq<string>, i: nat)
    requires Fair(h, all, waiting, mods) && q in mods
    requires !Even(h, all, waiting, mods, q, multiset(mods)[q])
    ensures Arranged(first, mods) && Arranged(last, mods) && i in waiting[q]
    ensures i !in Ending(h, all, waiting, first).run && i in Ending(h, all, waiting, last).run
  {
    hide Fair, Late, Turns, Others, Ending, First, Last, Rest, Going, Arranged;
    FairMods(h, all, waiting, mods);
    TwoArranged(mods, q);
    var n := multiset(mods)[q];
    first, last := First(mods, q), Last(mods, q);
    ArrangedHas(first, mods);
    ArrangedHas(last, mods);
    EndingIsLate(h, all, waiting, mods, first);
    EndingIsLate(h, all, waiting, mods, last);
    var js := Others(h, all, waiting, mods, q);
    TakesMore(h, all, waiting, mods, q, n);
    i :| i in Takes(h, all, js, waiting, q, n) && i !in Takes(h, all, {}, waiting, q, n);
    LateFirst(h, all, waiting, mods, q, i);
    LateLast(h, all, waiting, mods, q, n);
    assert i in Members(Ending(h, all, waiting, last).run);
    assert i !in Members(Ending(h, all, waiting, first).run);
  }

  /** Where all is settled, every order applies just what each module takes coming first. */
  lemma SettledApplies(h: Forest, all: seq<Augment>, waiting: map<string, seq<nat>>, mods: seq<string>,
                       order: seq<string>, i: nat)
    requires Fair(h, all, waiting, mods) && Settled(h, all, waiting, mods) && Arranged(order, mods)
    requires (forall m :: m in order ==> m in waiting) && forall m :: m in mods ==> m in waiting
    ensures i in Late(h, all, {}, waiting, order) <==>
              exists m :: m in mods && i in Takes(h, all, {}, waiting, m, multiset(mods)[m])
  {
    hide Late, Turns, Others, Arranged, NoClash, Everything, Separate;
    ArrangedHas(order, mods);
    if i in Late(h, all, {}, waiting, order) {
      LateWithin(h, all, {}, waiting, order, i);
      var m :| m in order && i in waiting[m];
      LateBelow(h, all, waiting, mods, order, m);
      assert Even(h, all, waiting, mods, m, multiset(mods)[m]);
    }
    if m :| m in mods && i in Takes(h, all, {}, waiting, m, multiset(mods)[m]) {
      LateCovers(h, all, {}, waiting, order, m);
    }
  }

  /** Any two orders of the turns apply the same augments in the last loop. */
  ghost predicate AnyOrderApplies(h: Forest, all: seq<Augment>, waiting: map<string, seq<nat>>, mods: seq<string>) {
    forall order, other, i :: Arranged(order, mods) && Arranged(other, mods) ==>
      (i in Ending(h, all, waiting, order).run <==> i in Ending(h, all, waiting, other).run)
  }

  lemma SameApplied(h: Forest, all: seq<Augment>, waiting: map<string, seq<nat>>, mods: seq<string>,
                    order: seq<string>, other: seq<string>, i: nat)
    requires Fair(h, all, waiting, mods) && (forall m :: m in mods ==> m in waiting)
    requires Settled(h, all, waiting, mods) && Arranged(order, mods) && Arranged(other, mods)
    ensures i in Ending(h, all, waiting, order).run <==> i in Ending(h, all, waiting, other).run
  {
    hide Fair, Settled, Late, Arranged, Ending, Takes, Going;
    ArrangedHas(order, mods);
    ArrangedHas(other, mods);
    SettledApplies(h, all, waiting, mods, order, i);
    SettledApplies(h, all, waiting, mods, other, i);
    EndingIsLate(h, all, waiting, mods, order);
    EndingIsLate(h, all, waiting, mods, other);
    assert i in Ending(h, all, waiting, order).run <==> i in Members(Ending(h, all, waiting, order).run);
    assert i in Ending(h, all, waiting, other).run <==> i in Members(Ending(h, all, waiting, other).run);
  }

  /**
   Where no augments clash: the last loop applies the same augments for every
   order of the turns if and only if no module hangs on the others.
   */
  lemma OrderIsExact(h: Forest, all: seq<Augment>, waiting: map<string, seq<nat>>, mods: seq<string>)
    requires Fair(h, all, waiting, mods) && forall m :: m in mods ==> m in waiting
    ensures AnyOrderApplies(h, all, waiting, mods) <==> Settled(h, all, waiting, mods)
  {
    hide Fair, Even, Ending, Arranged;
    if Settled(h, all, waiting, mods) {
      forall order, other, i | Arranged(order, mods) && Arranged(other, mods)
        ensures i in Ending(h, all, waiting, order).run <==> i in Ending(h, all, waiting, other).run
      {
        SameApplied(h, all, waiting, mods, order, other, i);
      }
    } else {
      var q :| q in mods && !Even(h, all, waiting, mods, q, multiset(mods)[q]);
      var first, last, i := HangingDepends(h, all, waiting, mods, q);
    }
  }

  /** Then it leaves the same schema, down to fields, namespaces and errors. */
  lemma SettledSchema(h: Forest, all: seq<Augment>, waiting: map<string, seq<nat>>, mods: seq<string>,
                      order: seq<string>, other: seq<string>)
    requires Fair(h, all, waiting, mods) && (forall m :: m in mods ==> m in waiting)
    requires Settled(h, all, waiting, mods) && Arranged(order, mods) && Arranged(other, mods)
    ensures Ending(h, all, waiting, order).schema == Ending(h, all, waiting, other).schema
  {
    hide Settled, Late, After, NoClash, Once, Everything, Arranged, Going, Ending, Fair;
    var a, b := Ending(h, all, waiting, order), Ending(h, all, waiting, other);
    ArrangedHas(order, mods);
    ArrangedHas(other, mods);
    EndingIsLate(h, all, waiting, mods, order);
    EndingIsLate(h, all, waiting, mods, other);
    forall i
      ensures i in a.run <==> i in b.run
    {
      SameApplied(h, all, waiting, mods, order, other, i);
    }
    GoingKeeps(h, all, waiting, mods, a);
    GoingKeeps(h, all, waiting, mods, b);
    GoingApart(h, all, waiting, mods, a);
    GoingApart(h, all, waiting, mods, b);
    SameSchemas(h, all, a.run, b.run);
  }

  lemma GoingApart(h: Forest, all: seq<Augment>, waiting: map<string, seq<nat>>, mods: seq<string>, st: State)
    requires Fair(h, all, waiting, mods) && Going(h, all, waiting, mods, st)
    ensures NoClash(h, all, st.run)
  {
    hide NoClash, Keeps, Everything, After;
    forall i | i in st.run
      ensures i in Everything(waiting, mods)
    {
      EverythingHas(waiting, mods, i);
    }
    NoClashPart(h, all, Everything(waiting, mods), st.run);
  }
}
