/** Resolving include and import statements (Modules.include in pkg/yang/modules.go). */
module Includes {

  /** An include or import statement. `found` is what looking its module up yields. */
  class Reference {
    const found: Module?
    var Module: Module?

    constructor (found: Module?)
      ensures this.found == found && Module == null
    {
      this.found := found;
      Module := null;
    }
  }

  class Module {
    const Include: seq<Reference>
    const Import: seq<Reference>

    constructor (includes: seq<Reference>, imports: seq<Reference>)
      ensures Include == includes && Import == imports
    {
      Include := includes;
      Import := imports;
    }

    function References(): seq<Reference> {
      Include + Import
    }
  }

  /** The modules of `all` only refer to modules of `all`. */
  ghost predicate Closed(all: set<Module>) {
    forall m, r :: m in all && r in m.References() && r.found != null ==> r.found in all
  }

  /** `a` includes or imports `b`. */
  ghost predicate Refers(a: Module, b: Module) {
    exists r :: r in a.References() && r.found == b
  }

  /** `path` follows include and import statements. */
  ghost predicate IsPath(all: set<Module>, older path: seq<Module>) {
    && path != []
    && (forall i :: 0 <= i < |path| ==> path[i] in all)
    && (forall i :: 0 < i < |path| ==> Refers(path[i - 1], path[i]))
  }

  ghost predicate Reaches(all: set<Module>, m: Module, x: Module) {
    exists path :: IsPath(all, path) && path[0] == m && path[|path| - 1] == x
  }

  lemma ReachesSelf(all: set<Module>, m: Module)
    requires m in all
    ensures Reaches(all, m, m)
  {
    assert IsPath(all, [m]) && [m][0] == m;
  }

  /** One more reference at the front. */
  lemma ReachesStep(all: set<Module>, m: Module, r: Reference, k: Module, x: Module)
    requires m in all && r in m.References() && r.found == k && Reaches(all, k, x)
    ensures Reaches(all, m, x)
  {
    var path :| IsPath(all, path) && path[0] == k && path[|path| - 1] == x;
    var longer := [m] + path;
    assert Refers(m, k);
    forall i | 0 < i < |longer|
      ensures Refers(longer[i - 1], longer[i])
    {
      if i > 1 { assert Refers(path[i - 2], path[i - 1]); }
    }
    assert IsPath(all, longer);
  }

  /** A set that follows all references holds everything its members reach. */
  lemma {:induction false} ClosedHoldsReached(all: set<Module>, inside: set<Module>, path: seq<Module>)
    requires IsPath(all, path) && path[0] in inside
    requires forall m, r :: m in inside && r in m.References() && r.found != null ==> r.found in inside
    ensures path[|path| - 1] in inside
    decreases |path|
  {
    if |path| > 1 {
      var rest := path[1..];
      assert Refers(path[0], path[1]);
      assert forall i :: 0 < i < |rest| ==> rest[i] == path[i + 1] && rest[i - 1] == path[i];
      ClosedHoldsReached(all, inside, rest);
    }
  }

  /** A reference of `m` whose module cannot be found. */
  ghost predicate Broken(m: Module) {
    exists r :: r in m.References() && r.found == null
  }

  /** Some module reached from `m` has a broken reference. */
  ghost predicate ReachesBroken(all: set<Module>, m: Module) {
    exists x :: x in all && Reaches(all, m, x) && Broken(x)
  }

  lemma BrokenHere(all: set<Module>, m: Module, r: Reference)
    requires m in all && r in m.References() && r.found == null
    ensures ReachesBroken(all, m)
  {
    ReachesSelf(all, m);
    assert Broken(m);
  }

  lemma BrokenStep(all: set<Module>, m: Module, r: Reference, k: Module)
    requires m in all && r in m.References() && r.found == k && ReachesBroken(all, k)
    ensures ReachesBroken(all, m)
  {
    var x :| x in all && Reaches(all, k, x) && Broken(x);
    ReachesStep(all, m, r, k, x);
  }

  ghost function AllReferences(all: set<Module>): set<Reference> {
    set m, r | m in all && r in m.References() :: r
  }

  /** What a module reaches reaches nothing more than it does. */
  lemma SoundBelow(all: set<Module>, m: Module, r: Reference)
    requires m in all && r in m.References() && !ReachesBroken(all, m)
    ensures r.found != null && !ReachesBroken(all, r.found)
  {
    hide ReachesBroken;
    if r.found == null {
      BrokenHere(all, m, r);
    } else if ReachesBroken(all, r.found) {
      BrokenStep(all, m, r, r.found);
    }
  }

  class Modules {
    ghost const all: set<Module>
    var includes: set<Module>   // modules include was already called on
    const ignore: bool          // IgnoreModuleResolveErrors

    constructor (ghost all: set<Module>, ignore: bool)
      ensures this.all == all && this.ignore == ignore && includes == {} && Settled() && Complete()
    {
      this.all := all;
      this.ignore := ignore;
      includes := {};
    }

    /** What a call changed: links only, to the module looked up. */
    twostate predicate OnlyLinks()
      reads this, AllReferences(all)
    {
      && old(includes) <= includes
      && forall r :: r in AllReferences(all) ==> r.Module == old(r.Module) || r.Module == r.found
    }

    /** The reference is linked to a visited module. */
    predicate Linked(r: Reference)
      reads this, r
    {
      r.found != null && r.Module == r.found && r.found in includes
    }

    /** All references of `x` that can be found are linked to visited modules. */
    ghost predicate LinkedAll(x: Module)
      requires x in all
      reads this, AllReferences(all)
    {
      forall r :: r in x.References() ==> r in AllReferences(all) && (r.found != null ==> Linked(r))
    }

    /** The references of `x` are linked, and only if that is to be ignored some cannot be found. */
    ghost predicate Done(x: Module)
      requires x in all
      reads this, AllReferences(all)
    {
      LinkedAll(x) && (ignore || !Broken(x))
    }

    /** The reference is linked, or it cannot be found and that is to be ignored. */
    predicate Handled(r: Reference)
      reads this, r
    {
      if r.found == null then ignore else Linked(r)
    }

    /** The modules visited beyond `start` are done. */
    ghost predicate DoneSince(start: set<Module>)
      reads this, AllReferences(all)
      requires includes <= all
    {
      forall x :: x in includes - start ==> Done(x)
    }

    /** Whatever failed, those visited beyond `start` that reach nothing broken are linked. */
    ghost predicate SurvivedSince(start: set<Module>)
      reads this, AllReferences(all)
      requires includes <= all
    {
      forall x :: x in includes - start && !ReachesBroken(all, x) ==> LinkedAll(x)
    }

    /** Every module visited is done. */
    ghost predicate Complete()
      reads this, AllReferences(all)
    {
      includes <= all && forall x :: x in includes ==> Done(x)
    }

    /** Every module visited that reaches nothing broken is linked. */
    ghost predicate Settled()
      reads this, AllReferences(all)
    {
      includes <= all && forall x :: x in includes && !ReachesBroken(all, x) ==> LinkedAll(x)
    }

    /** Processes one reference of `m`. */
    method Follow(m: Module, r: Reference) returns (ok: bool)
      requires Closed(all) && includes <= all && m in includes && r in m.References()
      modifies this, AllReferences(all)
      ensures includes <= all && OnlyLinks() && SurvivedSince(old(includes))
      ensures ok ==> DoneSince(old(includes)) && Handled(r)
      ensures !ok ==> !ignore && ReachesBroken(all, m)
      decreases |all - includes|, 1
    {
      hide ReachesBroken;
      assert r in AllReferences(all);
      var im := r.found;
      if im == null {
        if !ignore { BrokenHere(all, m, r); }
        return ignore;
      }
      ok := IncludeModule(im);
      if !ok {
        BrokenStep(all, m, r, im);
        return false;
      }
      r.Module := im;
    }

    /** Processes one list of references of `m`. */
    method FollowAll(m: Module, refs: seq<Reference>) returns (ok: bool)
      requires Closed(all) && includes <= all && m in includes
      requires forall r :: r in refs ==> r in m.References()
      modifies this, AllReferences(all)
      ensures includes <= all && OnlyLinks() && SurvivedSince(old(includes))
      ensures ok ==> DoneSince(old(includes)) && forall r :: r in refs ==> Handled(r)
      ensures !ok ==> !ignore && ReachesBroken(all, m)
      decreases |all - includes|, 2
    {
      hide ReachesBroken, DoneSince, SurvivedSince, Handled, Refers;
      ghost var start := includes;
      assert forall r :: r in refs ==> r in AllReferences(all);
      NothingSince();
      for i := 0 to |refs|
        invariant start <= includes <= all && OnlyLinks() && SurvivedSince(start) && DoneSince(start)
        invariant forall k :: 0 <= k < i ==> Handled(refs[k])
      {
        SmallerSet(all - includes, all - start);
        label before:
        ok := Follow(m, refs[i]);
        LinksOnly@before();
        SinceJoin@before(start);
        if !ok {
          return false;
        }
      }
      return true;
    }

    /**
     Resolves the references of `m` and of every module reached through them.
     Cycles are harmless: a module is entered at most once.
     */
    method IncludeModule(m: Module) returns (ok: bool)
      requires Closed(all) && includes <= all && m in all
      modifies this, AllReferences(all)
      ensures includes <= all && m in includes && OnlyLinks() && SurvivedSince(old(includes))
      ensures ok ==> DoneSince(old(includes))
      ensures !ok ==> !ignore && ReachesBroken(all, m)
      decreases |all - includes|, 0
    {
      hide ReachesBroken;
      if m in includes {
        return true;
      }
      includes := includes + {m};
      StrictlySmaller(all - includes, all - old(includes), m);
      ok := FollowAll(m, m.References());   // the includes, then the imports
      assert forall r :: r in m.References() ==> r in AllReferences(all);
    }

    /**
     From a fresh start, success means that every module reached was visited and
     linked; and it comes exactly when no module reached has a broken reference,
     or these are to be ignored.
     */
    method IncludeAll(m: Module) returns (ok: bool)
      requires Closed(all) && Complete() && m in all
      modifies this, AllReferences(all)
      ensures OnlyLinks() && Settled()
      ensures ok ==> Complete() && forall x :: x in all && Reaches(all, m, x) ==> x in includes
      ensures ok <==> ignore || !ReachesBroken(all, m)
    {
      ok := IncludeModule(m);
      if ok { VisitedReached(m); }
    }

    /** The visited modules hold all that the done ones among them reach. */
    lemma VisitedReached(m: Module)
      requires Closed(all) && Complete() && m in includes
      ensures forall x :: x in all && Reaches(all, m, x) ==> x in includes && Done(x)
      ensures !ignore ==> !ReachesBroken(all, m)
    {
      forall x | x in all && Reaches(all, m, x)
        ensures x in includes
      {
        var path :| IsPath(all, path) && path[0] == m && path[|path| - 1] == x;
        forall k, r | k in includes && r in k.References() && r.found != null
          ensures r.found in includes
        {
          assert Done(k);
        }
        ClosedHoldsReached(all, includes, path);
      }
    }

    /** A module that reaches nothing broken, once visited, has all it reaches visited and linked. */
    lemma SettledReached(m: Module)
      requires Closed(all) && Settled() && m in includes && !ReachesBroken(all, m)
      ensures forall x :: x in all && Reaches(all, m, x) ==> x in includes && LinkedAll(x)
    {
      hide ReachesBroken;
      var inside := set x | x in includes && !ReachesBroken(all, x);
      forall k, r | k in inside && r in k.References() && r.found != null
        ensures r.found in inside
      {
        assert LinkedAll(k);
        SoundBelow(all, k, r);
      }
      forall x | x in all && Reaches(all, m, x)
        ensures x in inside
      {
        var path :| IsPath(all, path) && path[0] == m && path[|path| - 1] == x;
        ClosedHoldsReached(all, inside, path);
      }
    }

    /**
     The loop of process over the modules read: it goes on after an error, and
     every module that reaches nothing broken ends with all it reaches linked.
     From a fresh start there is an error exactly if some module of the list
     reaches something broken and that is not to be ignored.
     */
    method IncludeEach(mods: seq<Module>) returns (errs: nat)
      requires Closed(all) && Settled() && forall m :: m in mods ==> m in all
      modifies this, AllReferences(all)
      ensures OnlyLinks() && Settled()
      ensures forall m, x :: m in mods && x in all && Reaches(all, m, x) && !ReachesBroken(all, m) ==>
                x in includes && LinkedAll(x)
      ensures errs > 0 ==> !ignore && exists m :: m in mods && ReachesBroken(all, m)
      ensures old(Complete()) && errs == 0 ==>
                && Complete()
                && forall m, x :: m in mods && x in all && Reaches(all, m, x) ==> x in includes
      ensures old(Complete()) ==> (errs > 0 <==> !ignore && exists m :: m in mods && ReachesBroken(all, m))
    {
      hide ReachesBroken, Reaches, LinkedAll, Done;
      errs := 0;
      for i := 0 to |mods|
        invariant OnlyLinks() && Settled()
        invariant forall k :: 0 <= k < i ==> mods[k] in includes
        invariant errs > 0 ==> !ignore && exists k :: 0 <= k < i && ReachesBroken(all, mods[k])
        invariant old(Complete()) && errs == 0 ==> Complete()
      {
        label before:
        var ok := IncludeModule(mods[i]);
        StillSettled@before();
        if !ok { errs := errs + 1; }
      }
      forall m | m in mods && !ReachesBroken(all, m)
        ensures forall x :: x in all && Reaches(all, m, x) ==> x in includes && LinkedAll(x)
      {
        SettledReached(m);
      }
      if old(Complete()) && errs == 0 {
        forall m | m in mods
          ensures forall x :: x in all && Reaches(all, m, x) ==> x in includes
          ensures !ignore ==> !ReachesBroken(all, m)
        {
          VisitedReached(m);
        }
      }
    }

    lemma NothingSince()
      requires includes <= all
      ensures DoneSince(includes) && SurvivedSince(includes)
    {
    }

    twostate lemma LinksOnly()
      requires OnlyLinks()
      ensures old(includes) <= includes
      ensures forall r :: r in AllReferences(all) && old(Handled(r)) ==> Handled(r)
    {
    }

    /** What was done before and what is done since make up one. */
    twostate lemma SinceJoin(start: set<Module>)
      requires start <= old(includes) <= includes <= all && OnlyLinks()
      requires SurvivedSince(old(includes)) && old(SurvivedSince(start)) && old(DoneSince(start))
      ensures SurvivedSince(start)
      ensures DoneSince(old(includes)) ==> DoneSince(start)
    {
      hide ReachesBroken;
    }

    /** Links that are only added leave what was linked so. */
    twostate lemma StillSettled()
      requires old(includes) <= includes <= all && OnlyLinks()
      ensures old(Settled()) && SurvivedSince(old(includes)) ==> Settled()
      ensures old(Complete()) && DoneSince(old(includes)) ==> Complete()
    {
    }
  }

  lemma StrictlySmaller(a: set<Module>, b: set<Module>, m: Module)
    requires a <= b && m in b && m !in a
    ensures |a| < |b|
  {
    SmallerSet(a, b - {m});
  }

  lemma SmallerSet(a: set<Module>, b: set<Module>)
    requires a <= b
    ensures |a| <= |b|
  {
    assert b == a + (b - a);
  }
}
