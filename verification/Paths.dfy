/** Schema node paths: how Find (pkg/yang/entry.go) reads them. */
module Paths {
  import opened Text
  import opened Trees
  import opened Wrappers

  /** getPrefix: the parts before and after the first colon. */
  function PrefixOf(s: string): string {
    var x := IndexOf(s, ":");
    if x < 0 then "" else s[..x]
  }

  function LocalName(s: string): string {
    var x := IndexOf(s, ":");
    if x < 0 then s else s[x + 1..]
  }

  /** One step of a path from the node at `p`; None is the nil entry. */
  function Step(t: Tree, p: Path, part: string): (r: Option<Path>)
    requires Has(t, p)
    ensures r.Some? ==> Has(t, r.value)
  {
    if part == "." then Some(p)
    else if part == ".." then
      if p == [] then None else (HasParent(t, p); Some(p[..|p| - 1]))
    else
      var n := LocalName(part);
      if n == "." then Some(p)
      else if n == "" || n == ".." then None
      else if Has(t, p + [n]) then Some(p + [n])
      else None
  }

  function Resolve(t: Tree, p: Path, parts: seq<string>): (r: Option<Path>)
    requires Has(t, p)
    ensures r.Some? ==> Has(t, r.value)
    decreases |parts|
  {
    if parts == [] then Some(p)
    else
      var s := Step(t, p, parts[0]);
      if s == None then None else Resolve(t, s.value, parts[1..])
  }

  lemma HasParent(t: Tree, p: Path)
    requires Has(t, p) && p != []
    ensures Has(t, p[..|p| - 1])
  {
    assert p == p[..|p| - 1] + [p[|p| - 1]];
    HasPrefix(t, p[..|p| - 1], [p[|p| - 1]]);
  }

  // ---------------------------------------------------------------- where a path leads

  /** The place a step leads to, whether or not there is a node. */
  function Heading(p: Path, part: string): Option<Path> {
    if part == "." then Some(p)
    else if part == ".." then (if p == [] then None else Some(p[..|p| - 1]))
    else
      var n := LocalName(part);
      if n == "." then Some(p) else if n == "" || n == ".." then None else Some(p + [n])
  }

  lemma StepIsHeading(t: Tree, p: Path, part: string)
    requires Has(t, p)
    ensures Step(t, p, part).Some? ==> Step(t, p, part) == Heading(p, part)
  {
  }

  lemma StepFound(t: Tree, p: Path, part: string)
    requires Has(t, p)
    ensures var s := Heading(p, part); Step(t, p, part) == if s.Some? && Has(t, s.value) then s else None
  {
    if part == ".." && p != [] { HasParent(t, p); }
  }

  function Aim(p: Path, parts: seq<string>): Option<Path>
    decreases |parts|
  {
    if parts == [] then Some(p)
    else
      var s := Heading(p, parts[0]);
      if s == None then None else Aim(s.value, parts[1..])
  }

  /** A path that leads to a node leads to the same place in every tree. */
  lemma {:induction false} ResolvedIsAim(t: Tree, p: Path, parts: seq<string>)
    requires Has(t, p)
    ensures Resolve(t, p, parts).Some? ==> Resolve(t, p, parts) == Aim(p, parts)
    decreases |parts|
  {
    if parts != [] {
      var s := Step(t, p, parts[0]);
      if s.Some? { ResolvedIsAim(t, s.value, parts[1..]); }
    }
  }

  /** A path that leads to a node still does when nodes are added. */
  lemma {:induction false} ResolvedStays(t: Tree, u: Tree, p: Path, parts: seq<string>)
    requires Has(t, p) && forall q: Path :: Has(t, q) ==> Has(u, q)
    ensures Resolve(t, p, parts).Some? ==> Resolve(u, p, parts) == Resolve(t, p, parts)
    decreases |parts|
  {
    if parts != [] {
      var s := Step(t, p, parts[0]);
      if s.Some? {
        assert Step(u, p, parts[0]) == s;
        ResolvedStays(t, u, s.value, parts[1..]);
      }
    }
  }

  // ---------------------------------------------------------------- plain paths

  /** The parts name the children of `p` one after the other, with prefixes or without. */
  predicate Spells(parts: seq<string>, p: Path) {
    && |parts| == |p|
    && forall k :: 0 <= k < |p| ==>
         parts[k] !in [".", ".."] && LocalName(parts[k]) == p[k] && p[k] !in ["", ".", ".."]
  }

  /** A plain path leads to a node exactly if there is one at its end. */
  lemma {:induction false} PlainLeads(t: Tree, at: Path, parts: seq<string>, p: Path)
    requires Has(t, at) && Spells(parts, p)
    ensures Resolve(t, at, parts) == if Has(t, at + p) then Some(at + p) else None
    ensures Aim(at, parts) == Some(at + p)
    decreases |parts|
  {
    hide LocalName, Has;
    if parts == [] {
      assert at + p == at;
    } else {
      var next := at + [p[0]];
      assert at + p == next + p[1..];
      if Has(t, next) {
        PlainLeads(t, next, parts[1..], p[1..]);
      } else {
        PlainAims(next, parts[1..], p[1..]);
        if Has(t, at + p) { HasPrefix(t, next, p[1..]); }
      }
    }
  }

  lemma {:induction false} PlainAims(at: Path, parts: seq<string>, p: Path)
    requires Spells(parts, p)
    ensures Aim(at, parts) == Some(at + p)
    decreases |parts|
  {
    hide LocalName;
    if parts == [] {
      assert at + p == at;
    } else {
      var next := at + [p[0]];
      assert at + p == next + p[1..];
      PlainAims(next, parts[1..], p[1..]);
    }
  }

  // ---------------------------------------------------------------- relative paths

  /** A name with a prefix and one without. */
  lemma NameParts(prefix: string, name: string)
    requires ':' !in prefix
    ensures PrefixOf(prefix + ":" + name) == prefix && LocalName(prefix + ":" + name) == name
    ensures ':' !in name ==> PrefixOf(name) == "" && LocalName(name) == name
  {
    var s := prefix + ":" + name;
    assert s[|prefix|..] == ":" + name && Text.At(s, |prefix|, ":");
    forall j | 0 <= j < |prefix| ensures !Text.At(s, j, ":") {
      assert s[j..][0] == prefix[j];
    }
    if ':' !in name {
      forall j | 0 <= j <= |name| ensures !Text.At(name, j, ":") {
        if j < |name| { assert name[j..][0] == name[j]; }
      }
    }
  }

  /** Steps up to the parent. */
  function Ups(n: nat): (u: seq<string>)
    ensures |u| == n
  {
    if n == 0 then [] else [".."] + Ups(n - 1)
  }

  /** From a node below `c`, so many steps up lead to `c`, from where the path goes on. */
  lemma {:induction false} UpLeads(t: Tree, c: Path, a: Path, parts: seq<string>)
    requires Has(t, c + a)
    ensures Has(t, c) && Resolve(t, c + a, Ups(|a|) + parts) == Resolve(t, c, parts)
    decreases |a|
  {
    hide Has;
    HasPrefix(t, c, a);
    if a == [] {
      assert c + a == c && Ups(0) + parts == parts;
    } else {
      var up := a[..|a| - 1];
      assert (c + a)[..|c + a| - 1] == c + up;
      assert (Ups(|a|) + parts)[0] == ".." && (Ups(|a|) + parts)[1..] == Ups(|up|) + parts;
      HasParent(t, c + a);
      UpLeads(t, c, up, parts);
    }
  }

  /** Up from one node and down to another: the path leads there exactly if there is one. */
  lemma RelativeLeads(t: Tree, c: Path, a: Path, b: Path, parts: seq<string>)
    requires Has(t, c + a) && Spells(parts, b)
    ensures Resolve(t, c + a, Ups(|a|) + parts) == if Has(t, c + b) then Some(c + b) else None
  {
    hide Has, Spells, Resolve;
    UpLeads(t, c, a, parts);
    PlainLeads(t, c, parts, b);
  }

  /** There is nothing above the root, and a single point stays where it is. */
  lemma NothingAbove(t: Tree, p: Path, parts: seq<string>)
    requires Has(t, p)
    ensures Resolve(t, [], [".."] + parts) == None
    ensures Resolve(t, p, ["."] + parts) == Resolve(t, p, parts)
  {
    assert ([".."] + parts)[0] == ".." && (["."] + parts)[1..] == parts;
  }

  /** Behind a prefix a point still stays where it is, but two points, or nothing, lead nowhere. */
  lemma PrefixedPoints(t: Tree, p: Path, prefix: string, parts: seq<string>)
    requires Has(t, p) && ':' !in prefix
    ensures Resolve(t, p, [prefix + ":."] + parts) == Resolve(t, p, parts)
    ensures Resolve(t, p, [prefix + ":.."] + parts) == None
    ensures Resolve(t, p, [prefix + ":"] + parts) == None && Resolve(t, p, [""] + parts) == None
  {
    hide LocalName, PrefixOf;
    PointsStep(t, p, prefix);
    assert ([prefix + ":."] + parts)[0] == prefix + ":." && ([prefix + ":."] + parts)[1..] == parts;
    assert ([prefix + ":.."] + parts)[0] == prefix + ":..";
    assert ([prefix + ":"] + parts)[0] == prefix + ":" && ([""] + parts)[0] == "";
  }

  lemma PointsStep(t: Tree, p: Path, prefix: string)
    requires Has(t, p) && ':' !in prefix
    ensures Step(t, p, prefix + ":.") == Some(p) && Step(t, p, prefix + ":..") == None
    ensures Step(t, p, prefix + ":") == None && Step(t, p, "") == None
  {
    hide LocalName, PrefixOf;
    NameParts(prefix, ".");
    NameParts(prefix, "..");
    NameParts(prefix, "");
    assert prefix + ":" + "." == prefix + ":." && prefix + ":" + ".." == prefix + ":..";
    assert prefix + ":" + "" == prefix + ":";
    assert (prefix + ":.")[|prefix|] == ':' && (prefix + ":..")[|prefix|] == ':' && (prefix + ":")[|prefix|] == ':';
  }
}
