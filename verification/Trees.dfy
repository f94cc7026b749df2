/**
 Schema trees as values, and what merging, implicit-case insertion and the
 namespace rule of pkg/yang/entry.go do to them.
 */
module Trees {
  import opened Wrappers

  datatype Kind = Leaf | Directory | AnyData | AnyXML | Case | Choice | Input | Notification | Output | Deviate

  datatype TriState = Unset | True | False

  /** The statement an entry was made from; FixChoice makes statements of its own. */
  datatype Origin = Written(id: nat) | ImplicitCase(of: Origin)

  datatype Error =
    | Reported(text: string)
    | DuplicateNode(key: string, within: string)
    | DuplicateKey(key: string)
    | UnknownPrefix(name: string)
    | NotFound(name: string)

  /** The fields of an entry other than its children and errors; details stands for those that are only copied. */
  datatype Info = Info(Node: Origin, Name: string, Kind: Kind, Config: TriState, Prefix: Option<string>,
                       namespace: Option<string>, Exts: seq<string>, details: string)

  /** An entry with all its descendants. Errors are counted, their order is left open. */
  datatype Tree = Tree(info: Info, Errors: multiset<Error>, hasDir: bool, Dir: map<string, Tree>)

  /** An entry as newLeaf and newDirectory leave it, with children. */
  function Fresh(name: string, kind: Kind, dir: map<string, Tree>): Tree {
    Tree(Info(Written(0), name, kind, Unset, None, None, [], ""), multiset{}, kind != Leaf, dir)
  }

  type Path = seq<string>

  /** Every child is filed under its own name, and only directories have children. */
  predicate Keyed(t: Tree)
    decreases t
  {
    && (!t.hasDir ==> t.Dir == map[])
    && forall k :: k in t.Dir ==> t.Dir[k].info.Name == k && Keyed(t.Dir[k])
  }

  /** The node at a path of child names. */
  function At(t: Tree, p: Path): Option<Tree>
    decreases |p|
  {
    if p == [] then Some(t)
    else if p[0] in t.Dir then At(t.Dir[p[0]], p[1..])
    else None
  }

  predicate Has(t: Tree, p: Path) {
    At(t, p).Some?
  }

  /** `t` with the node at `p` replaced by `u`. */
  function Replace(t: Tree, p: Path, u: Tree): Tree
    requires Has(t, p)
    decreases |p|
  {
    if p == [] then u
    else t.(Dir := t.Dir[p[0] := Replace(t.Dir[p[0]], p[1..], u)])
  }

  lemma {:induction false} AtConcat(t: Tree, p: Path, q: Path)
    requires Has(t, p)
    ensures At(t, p + q) == At(At(t, p).value, q)
    decreases |p|
  {
    if p == [] {
      assert p + q == q;
    } else {
      assert (p + q)[0] == p[0] && (p + q)[1..] == p[1..] + q;
      AtConcat(t.Dir[p[0]], p[1..], q);
    }
  }

  lemma {:induction false} HasPrefix(t: Tree, p: Path, q: Path)
    requires Has(t, p + q)
    ensures Has(t, p)
    decreases |p|
  {
    if p != [] {
      assert (p + q)[0] == p[0] && (p + q)[1..] == p[1..] + q;
      HasPrefix(t.Dir[p[0]], p[1..], q);
    }
  }

  /** The node at `q` after the one at `p` was replaced: inside, above, or elsewhere. */
  lemma {:induction false} AtReplaced(t: Tree, p: Path, u: Tree, q: Path)
    requires Has(t, p)
    ensures p <= q ==> At(Replace(t, p, u), q) == At(u, q[|p|..])
    ensures !(p <= q) && !(q <= p) ==> At(Replace(t, p, u), q) == At(t, q)
    ensures q <= p && q != p ==>
              && Has(t, q) && Has(Replace(t, p, u), q)
              && var a, b := At(t, q).value, At(Replace(t, p, u), q).value;
                 a.info == b.info && a.hasDir == b.hasDir && a.Errors == b.Errors && a.Dir.Keys == b.Dir.Keys
    decreases |p|
  {
    if p == [] {
      assert q[0..] == q;
    } else if q != [] && q[0] == p[0] {
      AtReplaced(t.Dir[p[0]], p[1..], u, q[1..]);
      assert p <= q <==> p[1..] <= q[1..];
      assert q <= p <==> q[1..] <= p[1..];
      if p <= q { assert q[1..][|p[1..]|..] == q[|p|..]; }
    }
  }

  /** Both trees have the node at `q`, with the same fields and errors, or neither has it. */
  ghost predicate SameAt(t: Tree, u: Tree, q: Path) {
    && (Has(t, q) <==> Has(u, q))
    && (Has(t, q) ==>
          var a, b := At(t, q).value, At(u, q).value;
          a.info == b.info && a.hasDir == b.hasDir && a.Errors == b.Errors)
  }

  lemma AtFirst(t: Tree, k: string, q: Path)
    ensures At(t, [k] + q) == if k in t.Dir then At(t.Dir[k], q) else None
  {
    assert ([k] + q)[0] == k && ([k] + q)[1..] == q;
  }

  /** Trees with the same nodes at the same paths are the same. */
  lemma {:induction false} SameTree(t: Tree, u: Tree)
    requires forall q :: SameAt(t, u, q)
    ensures t == u
    decreases t
  {
    assert SameAt(t, u, []);
    forall k
      ensures k in t.Dir <==> k in u.Dir
    {
      AtFirst(t, k, []);
      AtFirst(u, k, []);
      assert SameAt(t, u, [k] + []);
    }
    forall k | k in t.Dir
      ensures t.Dir[k] == u.Dir[k]
    {
      forall q
        ensures SameAt(t.Dir[k], u.Dir[k], q)
      {
        AtFirst(t, k, q);
        AtFirst(u, k, q);
        assert SameAt(t, u, [k] + q);
      }
      SameTree(t.Dir[k], u.Dir[k]);
    }
    assert t.Dir == u.Dir;
  }

  // ---------------------------------------------------------------- errors

  /** The errors of a node and of all below it. */
  ghost function AllErrors(t: Tree): multiset<Error>
    decreases t, |t.Dir.Keys| + 1
  {
    t.Errors + ErrorsBelow(t, t.Dir.Keys)
  }

  ghost function ErrorsBelow(t: Tree, keys: set<string>): multiset<Error>
    requires keys <= t.Dir.Keys
    decreases t, |keys|
  {
    if keys == {} then multiset{}
    else
      var k :| k in keys;
      assert |keys - {k}| < |keys|;
      AllErrors(t.Dir[k]) + ErrorsBelow(t, keys - {k})
  }

  /** The children can be counted in any order. */
  lemma {:induction false} ErrorsInAnyOrder(t: Tree, keys: set<string>, k: string)
    requires k in keys && keys <= t.Dir.Keys
    ensures ErrorsBelow(t, keys) == AllErrors(t.Dir[k]) + ErrorsBelow(t, keys - {k})
    decreases |keys|
  {
    hide AllErrors;
    var j :| j in keys && ErrorsBelow(t, keys) == AllErrors(t.Dir[j]) + ErrorsBelow(t, keys - {j});
    if j != k {
      ErrorsInAnyOrder(t, keys - {j}, k);
      ErrorsInAnyOrder(t, keys - {k}, j);
      assert keys - {j} - {k} == keys - {k} - {j};
    }
  }

  lemma ErrorsOwnAndBelow(t: Tree)
    ensures AllErrors(t) == t.Errors + ErrorsBelow(t, t.Dir.Keys)
  {
  }

  lemma NoErrorsBelow(t: Tree)
    ensures ErrorsBelow(t, {}) == multiset{}
  {
  }

  // ---------------------------------------------------------------- merge

  /** What merge sets on a child it takes over. */
  function Mounted(v: Tree, prefix: Option<string>, namespace: Option<string>, exts: seq<string>): Tree {
    v.(info := v.info.(Prefix := if prefix.Some? then prefix else v.info.Prefix,
                       namespace := if namespace.Some? then namespace else v.info.namespace,
                       Exts := v.info.Exts + exts))
  }

  /** One error for each child both trees have. */
  ghost function Clashes(t: Tree, o: Tree): multiset<Error> {
    multiset(set k | k in t.Dir && k in o.Dir :: DuplicateNode(k, t.info.Name))
  }

  /** `t` with the children of `o` it did not have. */
  ghost function Merged(t: Tree, o: Tree, prefix: Option<string>, namespace: Option<string>): Tree {
    t.(Errors := t.Errors + AllErrors(o) + Clashes(t, o),
       Dir := map k | k in t.Dir.Keys + o.Dir.Keys ::
                if k in t.Dir then t.Dir[k] else Mounted(o.Dir[k], prefix, namespace, o.info.Exts))
  }

  /** The tree after `o` was merged into its node at `p`. */
  ghost function MergedAt(t: Tree, p: Path, o: Tree, prefix: Option<string>, namespace: Option<string>): Tree
    requires Has(t, p)
  {
    Replace(t, p, Merged(At(t, p).value, o, prefix, namespace))
  }

  /** `q` lies under a child of `o` that a merge at `p` takes over. */
  predicate Added(t: Tree, p: Path, o: Tree, q: Path) {
    && p < q
    && Has(o, q[|p|..])
    && Has(t, p)
    && q[|p|] !in At(t, p).value.Dir
  }

  /** A merge removes no path, and adds just those below the children it takes over. */
  lemma MergedPaths(t: Tree, p: Path, o: Tree, prefix: Option<string>, namespace: Option<string>, q: Path)
    requires Has(t, p)
    ensures Has(MergedAt(t, p, o, prefix, namespace), q) <==> Has(t, q) || Added(t, p, o, q)
    ensures !(Has(t, q) && Added(t, p, o, q))
    ensures Has(t, q) ==>
              var a, b := At(t, q).value, At(MergedAt(t, p, o, prefix, namespace), q).value;
              && a.info == b.info && a.hasDir == b.hasDir
              && b.Errors == if q == p then a.Errors + AllErrors(o) + Clashes(a, o) else a.Errors
    ensures Added(t, p, o, q) ==>
              var k := q[|p|];
              At(MergedAt(t, p, o, prefix, namespace), q)
                == At(Mounted(o.Dir[k], prefix, namespace, o.info.Exts), q[|p| + 1..])
  {
    hide AllErrors, Clashes, Replace, Mounted;
    var r := At(t, p).value;
    var m := Merged(r, o, prefix, namespace);
    AtReplaced(t, p, m, q);
    if p <= q {
      var s := q[|p|..];
      assert q == p + s;
      AtConcat(t, p, s);
      if s != [] {
        assert s[0] == q[|p|] && s[1..] == q[|p| + 1..];
        if s[0] in o.Dir { MountedPaths(o.Dir[s[0]], prefix, namespace, o.info.Exts, s[1..]); }
      }
    }
  }

  lemma MountedPaths(v: Tree, prefix: Option<string>, namespace: Option<string>, exts: seq<string>, q: Path)
    ensures Has(Mounted(v, prefix, namespace, exts), q) <==> Has(v, q)
    ensures q != [] ==> At(Mounted(v, prefix, namespace, exts), q) == At(v, q)
  {
  }

  /**
   What a merge adds is what was there, except that a child it takes over gets
   the prefix and the namespace given, if any, and the extensions of its old parent.
   */
  lemma AddedNodes(t: Tree, p: Path, o: Tree, prefix: Option<string>, namespace: Option<string>, q: Path)
    requires Added(t, p, o, q)
    ensures Has(MergedAt(t, p, o, prefix, namespace), q)
    ensures var v, x := At(o, q[|p|..]).value, At(MergedAt(t, p, o, prefix, namespace), q).value;
            if |q| > |p| + 1 then x == v
            else
              && x.Dir == v.Dir && x.Errors == v.Errors && x.hasDir == v.hasDir
              && x.info == v.info.(Prefix := x.info.Prefix, namespace := x.info.namespace, Exts := x.info.Exts)
              && x.info.Exts == v.info.Exts + o.info.Exts
              && x.info.Prefix == (if prefix == None then v.info.Prefix else prefix)
              && x.info.namespace == (if namespace == None then v.info.namespace else namespace)
  {
    hide MergedAt;
    MergedPaths(t, p, o, prefix, namespace, q);
    var k, s := q[|p|], q[|p| + 1..];
    assert q[|p|..] == [k] + s && ([k] + s)[1..] == s;
    MountedPaths(o.Dir[k], prefix, namespace, o.info.Exts, s);
  }

  // ---------------------------------------------------------------- namespaces

  /** The namespace in force at `p` below a node where `inherited` is. */
  function NamespaceBelow(t: Tree, p: Path, inherited: string): string
    requires Has(t, p)
    decreases |p|
  {
    if p == [] then inherited
    else
      var c := t.Dir[p[0]];
      NamespaceBelow(c, p[1..], if c.info.namespace.Some? then c.info.namespace.value else inherited)
  }

  /** Whether a node is read-only, when `above` says so of its parent. */
  predicate ReadOnlyHere(i: Info, above: bool) {
    if i.Kind == Output then true
    else if i.Config == Unset then above
    else i.Config == False
  }

  /** Whether the node at `p` is read-only, when `here` says so of `t` itself. */
  predicate ReadOnlyBelow(t: Tree, p: Path, here: bool)
    requires Has(t, p)
    decreases |p|
  {
    if p == [] then here else ReadOnlyBelow(t.Dir[p[0]], p[1..], ReadOnlyHere(t.Dir[p[0]].info, here))
  }

  lemma ReadOnlyTop(t: Tree, here: bool)
    ensures ReadOnlyBelow(t, [], here) == here
  {
  }

  /** The node's own setting counts, else whatever is in force at its parent. */
  lemma {:induction false} NearestConfig(t: Tree, p: Path, k: string, here: bool)
    requires Has(t, p + [k])
    ensures Has(t, p)
    ensures ReadOnlyBelow(t, p + [k], here)
       <==> ReadOnlyHere(At(t, p + [k]).value.info, ReadOnlyBelow(t, p, here))
    decreases |p|
  {
    HasPrefix(t, p, [k]);
    if p == [] {
      assert [] + [k] == [k];
    } else {
      var c := t.Dir[p[0]];
      assert (p + [k])[0] == p[0] && (p + [k])[1..] == p[1..] + [k];
      NearestConfig(c, p[1..], k, ReadOnlyHere(c.info, here));
    }
  }

  /** An output, or a node that is set to be read-only. */
  predicate Locks(i: Info) {
    i.Kind == Output || i.Config == False
  }

  /** A node other than an output that is set to be configurable. */
  predicate Unlocks(i: Info) {
    i.Kind != Output && i.Config == True
  }

  /** The node at `p[..i]` locks, and none further down to `p` unlocks. */
  predicate LockedFrom(t: Tree, p: Path, i: nat) {
    && i <= |p| && Has(t, p[..i]) && Locks(At(t, p[..i]).value.info)
    && forall j :: i < j <= |p| ==> Has(t, p[..j]) && !Unlocks(At(t, p[..j]).value.info)
  }

  /** A node is read-only exactly if on the way to it something locks and nothing after that unlocks. */
  lemma {:induction false} ReadOnlyIsExact(t: Tree, p: Path)
    requires Has(t, p)
    ensures ReadOnlyBelow(t, p, ReadOnlyHere(t.info, false)) <==> exists i: nat :: LockedFrom(t, p, i)
    decreases |p|
  {
    hide ReadOnlyBelow, At;
    var here := ReadOnlyHere(t.info, false);
    assert p[..|p|] == p;
    if p == [] {
      ReadOnlyTop(t, here);
      AtRoot(t);
      assert p[..0] == [];
      if Locks(t.info) { assert LockedFrom(t, p, 0); }
    } else {
      var q, k := p[..|p| - 1], p[|p| - 1];
      assert p == q + [k];
      NearestConfig(t, q, k, here);
      ReadOnlyIsExact(t, q);
      assert forall j :: 0 <= j <= |q| ==> q[..j] == p[..j];
      LockedStep(t, p);
    }
  }

  lemma AtRoot(t: Tree)
    ensures Has(t, []) && At(t, []) == Some(t)
  {
  }

  lemma LockedStep(t: Tree, p: Path)
    requires p != [] && Has(t, p)
    ensures var q, i := p[..|p| - 1], At(t, p).value.info;
            (exists n: nat :: LockedFrom(t, p, n))
            <==> Locks(i) || (!Unlocks(i) && exists n: nat :: LockedFrom(t, q, n))
  {
    hide At, Locks, Unlocks;
    var q, info := p[..|p| - 1], At(t, p).value.info;
    assert p[..|p|] == p && forall j :: 0 <= j <= |q| ==> q[..j] == p[..j];
    if Locks(info) { assert LockedFrom(t, p, |p|); }
    if n: nat :| LockedFrom(t, q, n) {
      if !Unlocks(info) { assert LockedFrom(t, p, n); }
    }
    if n: nat :| LockedFrom(t, p, n) {
      if n < |p| { assert LockedFrom(t, q, n); }
    }
  }

  /** No node on the way down `p` has a mark of its own. */
  predicate Unmarked(t: Tree, p: Path)
    requires Has(t, p)
    decreases |p|
  {
    p == [] || (t.Dir[p[0]].info.namespace == None && Unmarked(t.Dir[p[0]], p[1..]))
  }

  lemma {:induction false} UnmarkedInherits(t: Tree, p: Path, inherited: string)
    requires Has(t, p) && Unmarked(t, p)
    ensures NamespaceBelow(t, p, inherited) == inherited
    decreases |p|
  {
    if p != [] { UnmarkedInherits(t.Dir[p[0]], p[1..], inherited); }
  }

  lemma {:induction false} NamespaceSplit(t: Tree, p: Path, q: Path, inherited: string)
    requires Has(t, p + q)
    ensures Has(t, p) && Has(At(t, p).value, q)
    ensures NamespaceBelow(t, p + q, inherited) == NamespaceBelow(At(t, p).value, q, NamespaceBelow(t, p, inherited))
    decreases |p|
  {
    HasPrefix(t, p, q);
    AtConcat(t, p, q);
    if p == [] {
      assert p + q == q;
    } else {
      var c := t.Dir[p[0]];
      assert (p + q)[0] == p[0] && (p + q)[1..] == p[1..] + q;
      NamespaceSplit(c, p[1..], q, if c.info.namespace.Some? then c.info.namespace.value else inherited);
    }
  }

  /** The node's own mark counts, else whatever is in force at its parent. */
  lemma NearestMark(t: Tree, p: Path, k: string, own: string)
    requires Has(t, p + [k])
    ensures Has(t, p)
    ensures var mark := At(t, p + [k]).value.info.namespace;
            NamespaceBelow(t, p + [k], own) == if mark.Some? then mark.value else NamespaceBelow(t, p, own)
  {
    NamespaceSplit(t, p, [k], own);
    AtConcat(t, p, [k]);
  }

  lemma NoMark(t: Tree, own: string)
    ensures NamespaceBelow(t, [], own) == own
  {
  }

  /** Trees with the same nodes on the way to `p`, apart from children and errors, agree on its namespace. */
  lemma {:induction false} SameWayDown(t: Tree, u: Tree, p: Path, inherited: string)
    requires Has(t, p) && Has(u, p)
    requires forall i {:trigger p[..i]} :: 0 < i <= |p| ==>
               Has(t, p[..i]) && Has(u, p[..i]) && At(t, p[..i]).value.info == At(u, p[..i]).value.info
    ensures NamespaceBelow(t, p, inherited) == NamespaceBelow(u, p, inherited)
    decreases |p|
  {
    if p != [] {
      assert p[..1] == [p[0]];
      var c, d := t.Dir[p[0]], u.Dir[p[0]];
      assert At(t, [p[0]]) == Some(c) && At(u, [p[0]]) == Some(d);
      var rest := p[1..];
      forall i | 0 < i <= |rest|
        ensures Has(c, rest[..i]) && Has(d, rest[..i]) && At(c, rest[..i]).value.info == At(d, rest[..i]).value.info
      {
        assert p[..i + 1][1..] == rest[..i] && p[..i + 1][0] == p[0];
        assert At(t, p[..i + 1]) == At(c, rest[..i]) && At(u, p[..i + 1]) == At(d, rest[..i]);
      }
      SameWayDown(c, d, rest, if c.info.namespace.Some? then c.info.namespace.value else inherited);
    }
  }

  /**
   After a merge with a namespace, what it added is in that namespace unless a
   mark further in says otherwise, and every other node is where it was.
   */
  lemma MergedNamespaces(t: Tree, p: Path, o: Tree, prefix: Option<string>, namespace: string, own: string, q: Path)
    requires Has(t, p) && Has(MergedAt(t, p, o, prefix, Some(namespace)), q)
    ensures var m := MergedAt(t, p, o, prefix, Some(namespace));
            if Has(t, q) then
              NamespaceBelow(m, q, own) == NamespaceBelow(t, q, own)
            else
              && Added(t, p, o, q)
              && var v, s := o.Dir[q[|p|]], q[|p| + 1..];
                 && NamespaceBelow(m, q, own) == NamespaceBelow(v, s, namespace)
                 && (Unmarked(v, s) ==> NamespaceBelow(m, q, own) == namespace)
  {
    hide MergedAt, NamespaceBelow, Mounted, Unmarked;
    var m := MergedAt(t, p, o, prefix, Some(namespace));
    MergedPaths(t, p, o, prefix, Some(namespace), q);
    if Has(t, q) {
      forall i | 0 < i <= |q|
        ensures Has(t, q[..i]) && Has(m, q[..i]) && At(t, q[..i]).value.info == At(m, q[..i]).value.info
      {
        assert q == q[..i] + q[i..];
        HasPrefix(t, q[..i], q[i..]);
        MergedPaths(t, p, o, prefix, Some(namespace), q[..i]);
      }
      SameWayDown(t, m, q, own);
    } else {
      AddedNamespace(t, p, o, prefix, namespace, own, q);
    }
  }

  lemma AddedNamespace(t: Tree, p: Path, o: Tree, prefix: Option<string>, namespace: string, own: string, q: Path)
    requires Added(t, p, o, q)
    ensures var m := MergedAt(t, p, o, prefix, Some(namespace));
            var v, s := o.Dir[q[|p|]], q[|p| + 1..];
            && Has(m, q) && Has(v, s)
            && NamespaceBelow(m, q, own) == NamespaceBelow(v, s, namespace)
            && (Unmarked(v, s) ==> NamespaceBelow(m, q, own) == namespace)
  {
    hide MergedAt;
    var m := MergedAt(t, p, o, prefix, Some(namespace));
    var k, s := q[|p|], q[|p| + 1..];
    var v := o.Dir[k];
    var x := Mounted(v, prefix, Some(namespace), o.info.Exts);
    MergedPaths(t, p, o, prefix, Some(namespace), q);
    MergedPaths(t, p, o, prefix, Some(namespace), p + [k]);
    assert q == p + [k] + s == p + ([k] + s);
    assert q[|p|..] == [k] + s && ([k] + s)[1..] == s;
    assert At(o, [k]) == Some(v);
    assert (p + [k])[|p|..] == [k] && (p + [k])[|p| + 1..] == [];
    assert Added(t, p, o, p + [k]);
    assert At(m, p + [k]) == Some(x);
    NamespaceSplit(m, p, [k] + s, own);
    AtConcat(m, p, [k]);
    assert At(m, p).value.Dir[k] == x;
    MountedPaths(v, prefix, Some(namespace), o.info.Exts, s);
    SameBelow(v, x, s, namespace);
    if Unmarked(v, s) { UnmarkedInherits(v, s, namespace); }
  }

  lemma SameBelow(v: Tree, x: Tree, s: Path, inherited: string)
    requires v.Dir == x.Dir && Has(v, s)
    ensures Has(x, s) && NamespaceBelow(v, s, inherited) == NamespaceBelow(x, s, inherited)
  {
  }
}
