/** What FixChoice (pkg/yang/entry.go) makes of a schema tree. */
module Choices {
  import opened Trees
  import opened Wrappers

  /** The case FixChoice puts around the child `c` of a choice; `body` is the child as it then is. */
  function CaseAround(c: Tree, body: Tree): Tree {
    Tree(Info(ImplicitCase(c.info.Node), c.info.Name, Case, c.info.Config, c.info.Prefix, None, [], ""),
         multiset{}, true, map[c.info.Name := body])
  }

  /** A choice without errors has its children put into cases. */
  predicate Repairs(t: Tree) {
    t.info.Kind == Choice && t.Errors == multiset{}
  }

  /** `t` with every bare child of a choice in a case of its own, at every depth. */
  ghost function Fixed(t: Tree): Tree
    decreases t
  {
    t.(Dir := map k | k in t.Dir :: FixedChild(t, t.Dir[k], Fixed(t.Dir[k])))
  }

  ghost function FixedChild(t: Tree, c: Tree, body: Tree): Tree {
    if Repairs(t) && c.info.Kind != Case then CaseAround(c, body) else body
  }

  /** The first half: only the children of `t` itself are put into cases. */
  function Wrapped(t: Tree): Tree {
    t.(Dir := map k | k in t.Dir ::
                if Repairs(t) && t.Dir[k].info.Kind != Case then CaseAround(t.Dir[k], t.Dir[k]) else t.Dir[k])
  }

  /** The children `keys` of a sound choice put into cases. */
  function WithWrapped(t: Tree, keys: set<string>): Tree {
    t.(Dir := map k | k in t.Dir ::
                if k in keys && t.Dir[k].info.Kind != Case then CaseAround(t.Dir[k], t.Dir[k]) else t.Dir[k])
  }

  lemma NoneWrapped(t: Tree)
    ensures WithWrapped(t, {}) == t
  {
    assert WithWrapped(t, {}).Dir == t.Dir;
  }

  lemma OneMoreWrapped(t: Tree, keys: set<string>, k: string)
    requires k in t.Dir && k !in keys
    ensures var w, c := WithWrapped(t, keys), t.Dir[k];
            && k in w.Dir && w.Dir[k] == c
            && WithWrapped(t, keys + {k}) == if c.info.Kind == Case then w else w.(Dir := w.Dir[k := CaseAround(c, c)])
  {
    hide CaseAround;
    var w, c := WithWrapped(t, keys), t.Dir[k];
    assert WithWrapped(t, keys + {k}).Dir == if c.info.Kind == Case then w.Dir else w.Dir[k := CaseAround(c, c)];
  }

  lemma AllWrapped(t: Tree)
    requires Repairs(t)
    ensures WithWrapped(t, t.Dir.Keys) == Wrapped(t)
  {
    assert WithWrapped(t, t.Dir.Keys).Dir == Wrapped(t).Dir;
  }

  /** The second half: those of the children `keys` fixed. */
  ghost function WithFixed(t: Tree, keys: set<string>): Tree {
    t.(Dir := map k | k in t.Dir :: if k in keys then Fixed(t.Dir[k]) else t.Dir[k])
  }

  /** Wrapping the children and then fixing each of them is what FixChoice does. */
  lemma FixedByChildren(t: Tree)
    ensures WithFixed(Wrapped(t), Wrapped(t).Dir.Keys) == Fixed(t)
    ensures !Repairs(t) ==> Wrapped(t) == t
  {
    hide Fixed, Repairs, CaseAround;
    var w := Wrapped(t);
    forall k | k in t.Dir
      ensures Fixed(w.Dir[k]) == FixedChild(t, t.Dir[k], Fixed(t.Dir[k]))
    {
      FixedCase(t.Dir[k]);
    }
    FixedShape(t);
    assert WithFixed(w, w.Dir.Keys).Dir == Fixed(t).Dir;
    NothingWrapped(t);
  }

  lemma NothingWrapped(t: Tree)
    ensures !Repairs(t) ==> Wrapped(t) == t
  {
    hide Repairs, CaseAround;
    if !Repairs(t) { assert Wrapped(t).Dir == t.Dir; }
  }

  lemma FixedCase(c: Tree)
    ensures Fixed(CaseAround(c, c)) == CaseAround(c, Fixed(c))
  {
    assert Fixed(CaseAround(c, c)).Dir == map[c.info.Name := Fixed(c)];
  }

  lemma NoneFixed(t: Tree)
    ensures WithFixed(t, {}) == t
  {
    assert WithFixed(t, {}).Dir == t.Dir;
  }

  lemma OneMoreFixed(t: Tree, keys: set<string>, k: string)
    requires k in t.Dir && k !in keys
    ensures var w := WithFixed(t, keys);
            k in w.Dir && w.Dir[k] == t.Dir[k] && WithFixed(t, keys + {k}) == w.(Dir := w.Dir[k := Fixed(w.Dir[k])])
  {
    hide Fixed;
    var w := WithFixed(t, keys);
    assert WithFixed(t, keys + {k}).Dir == w.Dir[k := Fixed(w.Dir[k])];
  }

  /** The children of `t` are `o` itself when `t` is a case around it, else those of `o`, some with a case around. */
  predicate Origins(o: Tree, around: bool, t: Tree) {
    forall k :: k in t.Dir ==>
      if around then t.Dir[k] == o
      else k in o.Dir && (t.Dir[k] == o.Dir[k] || t.Dir[k] == CaseAround(o.Dir[k], o.Dir[k]))
  }

  lemma OriginOf(o: Tree, around: bool, t: Tree, k: string) returns (c: Tree)
    requires Origins(o, around, t) && k in t.Dir
    ensures t.Dir[k] == c || t.Dir[k] == CaseAround(c, c)
    ensures (o decreases to c) || (around && c == o && t.Dir[k] == c)
  {
    c := if around then o else o.Dir[k];
  }

  lemma OriginsOf(o: Tree, around: bool, t: Tree, w: Tree)
    requires if around then t == CaseAround(o, o) else t == o
    requires w == if Repairs(t) then Wrapped(t) else t
    ensures Origins(o, around, w)
  {
  }

  /** The children of every choice without errors are cases. */
  predicate OnlyCases(t: Tree)
    decreases t
  {
    forall k :: k in t.Dir ==> (Repairs(t) ==> t.Dir[k].info.Kind == Case) && OnlyCases(t.Dir[k])
  }

  lemma {:induction false} FixedHasOnlyCases(t: Tree)
    ensures OnlyCases(Fixed(t))
    decreases t
  {
    forall k | k in t.Dir
      ensures OnlyCases(Fixed(t).Dir[k])
    {
      FixedHasOnlyCases(t.Dir[k]);
    }
  }

  /** FixChoice changes exactly the trees that have a bare child in a sound choice. */
  lemma {:induction false} FixedIsSame(t: Tree)
    ensures Fixed(t) == t <==> OnlyCases(t)
    decreases t
  {
    forall k | k in t.Dir
      ensures Fixed(t.Dir[k]) == t.Dir[k] <==> OnlyCases(t.Dir[k])
    {
      FixedIsSame(t.Dir[k]);
    }
    var f := Fixed(t);
    if OnlyCases(t) {
      assert f.Dir == t.Dir;
    } else {
      var k :| k in t.Dir && !((Repairs(t) ==> t.Dir[k].info.Kind == Case) && OnlyCases(t.Dir[k]));
      assert f.Dir[k] != t.Dir[k];
    }
  }

  /** A second run changes nothing. */
  lemma FixedTwice(t: Tree)
    ensures Fixed(Fixed(t)) == Fixed(t)
  {
    FixedHasOnlyCases(t);
    FixedIsSame(Fixed(t));
  }

  /** All children of a choice end up as cases if and only if it had no errors or no bare child. */
  lemma ChoiceGetsCases(t: Tree)
    requires t.info.Kind == Choice
    ensures (forall k :: k in Fixed(t).Dir ==> Fixed(t).Dir[k].info.Kind == Case)
       <==> t.Errors == multiset{} || (forall k :: k in t.Dir ==> t.Dir[k].info.Kind == Case)
  {
    hide Fixed;
    FixedShape(t);
    forall k | k in t.Dir
      ensures Fixed(t).Dir[k].info.Kind == Case <==> t.Errors == multiset{} || t.Dir[k].info.Kind == Case
    {
      FixedShape(t.Dir[k]);
    }
    assert forall k :: k in t.Dir <==> k in Fixed(t).Dir;
  }

  lemma {:induction false} FixedKeyed(t: Tree)
    requires Keyed(t)
    ensures Keyed(Fixed(t))
    decreases t
  {
    forall k | k in t.Dir
      ensures Fixed(t).Dir[k].info.Name == k && Keyed(Fixed(t).Dir[k])
    {
      FixedKeyed(t.Dir[k]);
    }
  }

  /** Nothing is reported, and no report is lost. */
  lemma {:induction false} FixedErrors(t: Tree)
    requires Keyed(t)
    ensures AllErrors(Fixed(t)) == AllErrors(t)
    decreases t, |t.Dir.Keys| + 1
  {
    hide Fixed, Keyed;
    assert Fixed(t).Dir.Keys == t.Dir.Keys && Fixed(t).Errors == t.Errors by { FixedShape(t); }
    FixedErrorsBelow(t, t.Dir.Keys);
  }

  lemma FixedShape(t: Tree)
    ensures var f := Fixed(t);
            f.Dir.Keys == t.Dir.Keys && f.Errors == t.Errors && f.info == t.info && f.hasDir == t.hasDir
    ensures forall k :: k in t.Dir ==> Fixed(t).Dir[k] == FixedChild(t, t.Dir[k], Fixed(t.Dir[k]))
  {
  }

  lemma {:induction false} FixedErrorsBelow(t: Tree, keys: set<string>)
    requires Keyed(t) && keys <= t.Dir.Keys && keys <= Fixed(t).Dir.Keys
    ensures ErrorsBelow(Fixed(t), keys) == ErrorsBelow(t, keys)
    decreases t, |keys|
  {
    hide Fixed, AllErrors, ErrorsBelow, CaseAround, Repairs;
    if keys == {} {
      NoErrorsBelow(t);
      NoErrorsBelow(Fixed(t));
    } else {
      var k :| k in keys;
      ErrorsInAnyOrder(t, keys, k);
      ErrorsInAnyOrder(Fixed(t), keys, k);
      FixedErrorsBelow(t, keys - {k});
      FixedErrors(t.Dir[k]);
      assert AllErrors(Fixed(t).Dir[k]) == AllErrors(t.Dir[k]) by {
        FixedShape(t);
        CaseErrors(t.Dir[k], Fixed(t.Dir[k]));
      }
    }
  }

  lemma CaseErrors(c: Tree, body: Tree)
    ensures AllErrors(CaseAround(c, body)) == AllErrors(body)
  {
    hide AllErrors;
    var a := CaseAround(c, body);
    var keys := {c.info.Name};
    assert a.Dir.Keys == keys;
    ErrorsInAnyOrder(a, keys, c.info.Name);
    assert keys - {c.info.Name} == {};
    ErrorsOwnAndBelow(a);
  }

  // ---------------------------------------------------------------- the data tree

  /** Choices and cases are not part of the data tree. */
  predicate Elided(t: Tree) {
    t.info.Kind == Choice || t.info.Kind == Case
  }

  /** What a node takes from above: the namespace and the Config in force, and whether it is read-only. */
  datatype Force = Force(namespace: string, config: TriState, readOnly: bool)

  /** What is in force at the child `c` where `above` is in force above it: its own setting first. */
  function Own(c: Tree, above: Force): Force {
    Force(if c.info.namespace.Some? then c.info.namespace.value else above.namespace,
          if c.info.Config != Unset then c.info.Config else above.config,
          ReadOnlyHere(c.info, above.readOnly))
  }

  /** Below `t` the data tree has a node `i` at the data path `p`, with `n` in force. */
  ghost predicate HasData(t: Tree, above: Force, p: Path, i: Info, n: Force)
    decreases t, 0
  {
    exists k :: k in t.Dir && DataChild(t.Dir[k], k, above, p, i, n)
  }

  ghost predicate DataChild(c: Tree, k: string, above: Force, p: Path, i: Info, n: Force)
    decreases c, 1
  {
    if Elided(c) then HasData(c, Own(c, above), p, i, n)
    else
      && p != [] && p[0] == k
      && if |p| == 1 then i == c.info && n == Own(c, above) else HasData(c, Own(c, above), p[1..], i, n)
  }

  /**
   FixChoice leaves every data node where it was, with its own fields, its
   namespace, the Config in force there and whether it is read-only, and adds none.
   */
  lemma {:induction false} SameData(t: Tree, above: Force, p: Path, i: Info, n: Force)
    requires Keyed(t)
    ensures HasData(Fixed(t), above, p, i, n) <==> HasData(t, above, p, i, n)
    decreases t
  {
    hide Fixed, HasData;
    FixedShape(t);
    forall k | k in t.Dir
      ensures DataChild(Fixed(t).Dir[k], k, above, p, i, n) <==> DataChild(t.Dir[k], k, above, p, i, n)
    {
      SameDataChild(t, k, above, p, i, n);
    }
    HasDataMeans(t, above, p, i, n);
    HasDataMeans(Fixed(t), above, p, i, n);
  }

  lemma HasDataMeans(t: Tree, above: Force, p: Path, i: Info, n: Force)
    ensures HasData(t, above, p, i, n) <==> exists k :: k in t.Dir && DataChild(t.Dir[k], k, above, p, i, n)
  {
  }

  lemma KeyedChild(t: Tree, k: string)
    requires Keyed(t) && k in t.Dir
    ensures Keyed(t.Dir[k]) && t.Dir[k].info.Name == k
  {
  }

  lemma {:induction false} SameDataChild(t: Tree, k: string, above: Force, p: Path, i: Info, n: Force)
    requires Keyed(t) && k in t.Dir && k in Fixed(t).Dir
    ensures DataChild(Fixed(t).Dir[k], k, above, p, i, n) <==> DataChild(t.Dir[k], k, above, p, i, n)
    decreases t, 0
  {
    hide Fixed, HasData, Keyed, Repairs;
    var c := t.Dir[k];
    var body := Fixed(c);
    assert Keyed(c) && c.info.Name == k by { KeyedChild(t, k); }
    FixedShape(t);
    FixedShape(c);
    SameData(c, Own(c, above), p, i, n);
    if p != [] { SameData(c, Own(c, above), p[1..], i, n); }
    assert DataChild(body, k, above, p, i, n) <==> DataChild(c, k, above, p, i, n);
    var x := CaseAround(c, body);
    HasDataMeans(x, Own(x, above), p, i, n);
    assert x.Dir.Keys == {k} && x.Dir[k] == body;
    assert HasData(x, Own(x, above), p, i, n) <==> DataChild(body, k, Own(x, above), p, i, n);
    assert Own(body, Own(x, above)) == Own(c, above);
  }

  /** A case put in shows the name, the Config and the prefix of its child, and nothing else. */
  lemma CaseShowsChild(t: Tree, k: string)
    requires Keyed(t) && k in t.Dir && Repairs(t) && t.Dir[k].info.Kind != Case
    ensures k in Fixed(t).Dir
    ensures var x, c := Fixed(t).Dir[k].info, t.Dir[k].info;
            && x.Kind == Case && x.Name == c.Name == k && x.Config == c.Config && x.Prefix == c.Prefix
            && x.namespace == None && x.Exts == [] && x.Node == ImplicitCase(c.Node) && x.details == ""
    ensures Fixed(t).Dir[k].Errors == multiset{} && Fixed(t).Dir[k].Dir.Keys == {k}
  {
    hide Fixed;
    FixedShape(t);
  }
}
