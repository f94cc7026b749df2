/**
 When a name has a target after a run of augments, read from the schema before
 the run, the names, and the bodies of the augments.
 */
module Supplies {
  import opened Wrappers
  import opened Trees
  import opened Paths
  import opened Augments
  import opened Confluence

  /** The members of a run. */
  function Members(run: seq<nat>): set<nat> {
    set i | i in run
  }

  /** The place is in the schema, or one of the augments `js` adds it. */
  ghost predicate Supplied(f: Forest, all: seq<Augment>, js: set<nat>, y: Place) {
    Exists(f, y) || exists j: nat :: j in js && j < |all| && Adds(f, all[j], y)
  }

  /** So is every place the parts lead through from `p` on. */
  ghost predicate LeadsAlong(f: Forest, all: seq<Augment>, js: set<nat>, m: string, p: Path, parts: seq<string>)
    decreases |parts|
  {
    parts == [] ||
    var s := Heading(p, parts[0]);
    s.Some? && Supplied(f, all, js, Place(m, s.value)) && LeadsAlong(f, all, js, m, s.value, parts[1..])
  }

  /** Everything on the way to what augment `a` names is in the schema or added by one of the augments `js`. */
  ghost predicate Leads(f: Forest, all: seq<Augment>, js: set<nat>, a: Augment) {
    var m := Start(a);
    m.Some? && m.value in f && LeadsAlong(f, all, js, m.value, [], Parts(a))
  }

  /** Where nothing clashes, a run leaves just the places it started with and those its augments add. */
  lemma RunSupplies(f: Forest, all: seq<Augment>, run: seq<nat>, y: Place)
    requires After(f, all, run).Some? && Once(run) && NoClash(f, all, run)
    ensures Exists(After(f, all, run).value, y) <==> Supplied(f, all, Members(run), y)
  {
    hide Exists, Adds, After, NoClash, AddedInfo, Source, SameFields;
    RunNodes(f, all, run, y);
    if !Exists(f, y) {
      if Exists(After(f, all, run).value, y) {
        var i: nat :| i in run && i < |all| && AddedBy(f, all[i], y, Node(After(f, all, run).value, y));
        assert i in Members(run);
      }
      if j: nat :| j in Members(run) && j < |all| && Adds(f, all[j], y) {
        RunAdds(f, all, run, j, y);
      }
    }
  }

  /** So an augment has a target after the run exactly if its name leads there. */
  lemma LeadsIsExact(f: Forest, all: seq<Augment>, run: seq<nat>, a: Augment)
    requires After(f, all, run).Some? && Once(run) && NoClash(f, all, run)
    ensures Target(After(f, all, run).value, a).Some? <==> Leads(f, all, Members(run), a)
  {
    hide After, NoClash, Supplied, Start, Parts, Resolve, LeadsAlong;
    RunNodes(f, all, run, Place("", []));
    var g, m := After(f, all, run).value, Start(a);
    if m.Some? && m.value in f { AlongIsExact(f, all, run, m.value, [], Parts(a)); }
  }

  lemma {:induction false} AlongIsExact(f: Forest, all: seq<Augment>, run: seq<nat>, m: string, p: Path,
                                        parts: seq<string>)
    requires After(f, all, run).Some? && Once(run) && NoClash(f, all, run)
    requires m in After(f, all, run).value && Has(After(f, all, run).value[m], p)
    ensures Resolve(After(f, all, run).value[m], p, parts).Some? <==> LeadsAlong(f, all, Members(run), m, p, parts)
    decreases |parts|
  {
    hide After, NoClash, Supplied, Has, Step, Heading;
    if parts != [] {
      var t := After(f, all, run).value[m];
      StepFound(t, p, parts[0]);
      var s := Heading(p, parts[0]);
      if s.Some? {
        RunSupplies(f, all, run, Place(m, s.value));
        if Has(t, s.value) { AlongIsExact(f, all, run, m, s.value, parts[1..]); }
      }
    }
  }

  /** More augments supply more. */
  lemma {:induction false} LeadsMore(f: Forest, all: seq<Augment>, js: set<nat>, more: set<nat>, m: string, p: Path,
                                     parts: seq<string>)
    requires js <= more
    ensures LeadsAlong(f, all, js, m, p, parts) ==> LeadsAlong(f, all, more, m, p, parts)
    decreases |parts|
  {
    hide Heading, Adds, Exists;
    if parts != [] {
      var s := Heading(p, parts[0]);
      if s.Some? { LeadsMore(f, all, js, more, m, s.value, parts[1..]); }
    }
  }

  lemma LeadsGrows(f: Forest, all: seq<Augment>, js: set<nat>, more: set<nat>, a: Augment)
    requires js <= more
    ensures Leads(f, all, js, a) ==> Leads(f, all, more, a)
  {
    hide LeadsAlong, Start, Parts;
    var m := Start(a);
    if m.Some? { LeadsMore(f, all, js, more, m.value, [], Parts(a)); }
  }

  // ---------------------------------------------------------------- plain names

  /** Every place on the way from `at` down the path `p` is supplied. */
  ghost predicate SuppliedAlong(f: Forest, all: seq<Augment>, js: set<nat>, m: string, at: Path, p: Path) {
    forall k :: 0 < k <= |p| ==> Supplied(f, all, js, Place(m, at + p[..k]))
  }

  /** A name that spells out a path leads along just that path. */
  lemma {:induction false} PlainLeadsAlong(f: Forest, all: seq<Augment>, js: set<nat>, m: string, at: Path,
                                           parts: seq<string>, p: Path)
    requires Spells(parts, p)
    ensures LeadsAlong(f, all, js, m, at, parts) <==> SuppliedAlong(f, all, js, m, at, p)
    decreases |parts|
  {
    hide Supplied, LocalName;
    if parts != [] {
      var next, rest := at + [p[0]], p[1..];
      PlainLeadsAlong(f, all, js, m, next, parts[1..], rest);
      assert at + p[..1] == next;
      forall k | 0 < k < |p|
        ensures at + p[..k + 1] == next + rest[..k]
      {
      }
      if SuppliedAlong(f, all, js, m, next, rest) && Supplied(f, all, js, Place(m, next)) {
        forall k | 0 < k <= |p|
          ensures Supplied(f, all, js, Place(m, at + p[..k]))
        {
          if k > 1 { assert at + p[..k - 1 + 1] == next + rest[..k - 1]; }
        }
      }
      if SuppliedAlong(f, all, js, m, at, p) {
        forall k | 0 < k <= |rest|
          ensures Supplied(f, all, js, Place(m, next + rest[..k]))
        {
          assert at + p[..k + 1] == next + rest[..k];
        }
      }
    }
  }
}
