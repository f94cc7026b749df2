/** Schema trees in the heap, with parent links: the methods of pkg/yang/entry.go. */
module Entries {
  import opened Trees
  import opened Wrappers
  import opened Choices
  import opened Paths

  class Entry {
    var Parent: Entry?
    var info: Info                   // Node, Name, Kind, Config, Prefix, namespace, Exts and the fields only copied
    var Errors: seq<Error>
    var hasDir: bool                 // Dir is not nil
    var Dir: map<string, Entry>
    ghost var Repr: set<Entry>       // this entry and all below it
    ghost var tree: Tree             // the tree this entry is the root of

    /** `c` is the child `k` of `e`, whose entries are `repr` and whose children show as `trees`. */
    static ghost predicate Child(e: Entry, repr: set<Entry>, trees: map<string, Tree>, k: string, c: Entry)
      reads c
    {
      && c in repr && c in c.Repr && c.Repr <= repr && e !in c.Repr
      && c.Parent == e && c.info.Name == k && k in trees && c.tree == trees[k]
    }

    /** No two children share an entry. */
    static ghost predicate Apart(dir: map<string, Entry>)
      reads dir.Values
    {
      forall j, k :: j in dir && k in dir && j != k ==> dir[j].Repr !! dir[k].Repr
    }

    /** The ghost fields cover what is below, and each child knows its holder and its key. */
    ghost predicate Here()
      reads this`info, this`Errors, this`hasDir, this`Dir, this`Repr, this`tree, Dir.Values
    {
      && this in Repr && (!hasDir ==> Dir == map[])
      && tree.info == info && tree.Errors == multiset(Errors) && tree.hasDir == hasDir && tree.Dir.Keys == Dir.Keys
      && (forall k :: k in Dir ==> Child(this, Repr, tree.Dir, k, Dir[k]))
      && Apart(Dir)
    }

    /** A tree: this and every entry below is a proper holder. */
    ghost predicate Valid()
      reads this`info, this`Errors, this`hasDir, this`Dir, this`Repr, this`tree, Repr - {this}
      decreases Repr
    {
      Dir.Values <= Repr - {this} && Here()
      && forall k :: k in Dir ==> Child(this, Repr, tree.Dir, k, Dir[k]) && Dir[k].Valid()
    }

    /** newDirectory and newLeaf: an entry without children, in a tree of its own. */
    constructor (info: Info, hasDir: bool)
      ensures Valid() && Repr == {this} && Parent == null
      ensures tree == Tree(info, multiset{}, hasDir, map[])
    {
      Parent, this.info, Errors, this.hasDir, Dir := null, info, [], hasDir, map[];
      Repr := {this};
      tree := Tree(info, multiset{}, hasDir, map[]);
    }

    /** A copy of the fields of `e`; its children are left to the caller. */
    constructor Copy(e: Entry)
      ensures Parent == e.Parent && info == e.info && Errors == e.Errors && hasDir == e.hasDir
      ensures Dir == map[] && Repr == {this} && tree == Tree(e.info, multiset(e.Errors), e.hasDir, map[]) && Valid()
    {
      Parent, info, Errors, hasDir, Dir := e.Parent, e.info, e.Errors, e.hasDir, map[];
      Repr := {this};
      tree := Tree(e.info, multiset(e.Errors), e.hasDir, map[]);
    }

    lemma Open()
      requires Valid()
      ensures Here() && this in Repr && (!hasDir ==> Dir == map[])
      ensures tree.info == info && tree.Errors == multiset(Errors) && tree.hasDir == hasDir && tree.Dir.Keys == Dir.Keys
      ensures forall k :: k in Dir ==> Dir[k].Valid() && Child(this, Repr, tree.Dir, k, Dir[k])
      ensures Apart(Dir)
    {
    }

    lemma Fields()
      requires Valid()
      ensures this in Repr && (Dir != map[] ==> hasDir) && Dir.Keys == tree.Dir.Keys
      ensures tree.info == info && tree.Errors == multiset(Errors) && tree.hasDir == hasDir
    {
    }

    lemma Close()
      requires Here() && forall k :: k in Dir ==> Dir[k].Valid()
      ensures Valid()
    {
    }

    /** A deep copy: all its entries are new, and it is the same tree. */
    method Dup() returns (ne: Entry)
      requires Valid()
      ensures ne.Valid() && fresh(ne.Repr) && ne in ne.Repr
      ensures ne.Parent == Parent && ne.info == info && ne.tree == tree
      decreases Repr
    {
      hide *;
      ne := new Entry.Copy(this);
      Open();
      var keys := Dir.Keys;
      while keys != {}
        invariant keys <= Dir.Keys
        invariant ne.Valid() && fresh(ne.Repr) && ne in ne.Repr
        invariant ne.Parent == Parent && ne.info == info && ne.hasDir == hasDir && ne.Dir.Keys == Dir.Keys - keys
        invariant ne.tree == tree.(Dir := ne.tree.Dir)
        invariant ne.tree.Dir.Keys == Dir.Keys - keys && forall k :: k in ne.tree.Dir ==> ne.tree.Dir[k] == tree.Dir[k]
      {
        var k :| k in keys;
        Below(k);
        var de := Dir[k].Dup();
        ne.Put(k, de);
        keys := keys - {k};
      }
      assert ne.tree.Dir == tree.Dir;
    }

    /** Makes the tree `c` the child `k`, which must be free. */
    method Put(k: string, c: Entry)
      requires Valid() && c.Valid() && Repr !! c.Repr && hasDir && k !in Dir && c.info.Name == k
      modifies this`Dir, this`Repr, this`tree, c`Parent
      ensures Valid() && c.Valid() && c.Parent == this
      ensures Dir == old(Dir)[k := c] && Repr == old(Repr) + c.Repr
      ensures tree == old(tree).(Dir := old(tree).Dir[k := c.tree])
    {
      hide Valid, Here, Child, Apart;
      ghost var dir, repr, t := Dir, Repr, tree;
      Open();
      forall j | j in dir { Below(j); }
      c.Open();
      c.Parent := this;
      Dir := Dir[k := c];
      Repr := Repr + c.Repr;
      tree := tree.(Dir := tree.Dir[k := c.tree]);
      Rejoin(k, c, dir, repr, t.Dir);
    }

    lemma Below(k: string)
      requires Valid() && k in Dir
      ensures var c := Dir[k];
              && c.Valid() && c in c.Repr && c.Repr <= Repr && this !in c.Repr && c.Repr < Repr
              && c.Parent == this && c.info.Name == k && k in tree.Dir && c.tree == tree.Dir[k]
    {
    }

    /** The entry is the root of a tree again once the tree `c` was put beside the children `dir`. */
    lemma Rejoin(k: string, c: Entry, dir: map<string, Entry>, repr: set<Entry>, trees: map<string, Tree>)
      requires hasDir && k !in dir && Dir == dir[k := c]
      requires this in Repr && repr + c.Repr <= Repr && c in c.Repr && this !in c.Repr
      requires c.Parent == this && c.info.Name == k && c.Valid()
      requires tree.info == info && tree.Errors == multiset(Errors) && tree.hasDir == hasDir
      requires trees.Keys == dir.Keys && tree.Dir == trees[k := c.tree]
      requires forall j :: j in dir ==> Child(this, repr, trees, j, dir[j]) && dir[j].Valid() && dir[j].Repr !! c.Repr
      requires Apart(dir)
      ensures Valid()
    {
      hide Valid;
      forall j | j in Dir
        ensures Child(this, Repr, tree.Dir, j, Dir[j]) && Dir[j].Valid()
      {
        if j != k { assert Child(this, repr, trees, j, dir[j]) && dir[j].Valid(); }
      }
      ApartWith(k, c, dir);
      Close();
    }

    static lemma ApartWith(k: string, c: Entry, dir: map<string, Entry>)
      requires k !in dir && Apart(dir)
      requires forall j :: j in dir ==> dir[j].Repr !! c.Repr
      ensures Apart(dir[k := c])
    {
    }

    // -------------------------------------------------------------- errors

    method AddError(err: Error)
      requires Valid()
      modifies this`Errors, this`tree
      ensures Valid() && Errors == old(Errors) + [err]
      ensures tree == old(tree).(Errors := old(tree).Errors + multiset{err})
    {
      hide Valid, Child, Apart;
      Open();
      forall k | k in Dir { Below(k); }
      Errors := Errors + [err];
      tree := tree.(Errors := tree.Errors + multiset{err});
      Close();
    }

    /** Takes over the errors of `c` and of all below it, in whatever order the children come. */
    method ImportErrors(c: Entry)
      requires Valid() && c.Valid() && this !in c.Repr
      modifies this`Errors, this`tree
      ensures Valid()
      ensures tree == old(tree).(Errors := old(tree).Errors + AllErrors(c.tree))
      decreases c.Repr, 1
    {
      hide *;
      c.Open();
      for i := 0 to |c.Errors|
        invariant Valid() && tree == old(tree).(Errors := old(tree).Errors + multiset(c.Errors[..i]))
      {
        assert c.Errors[..i + 1] == c.Errors[..i] + [c.Errors[i]];
        AddError(c.Errors[i]);
      }
      assert c.Errors[..|c.Errors|] == c.Errors;
      ErrorsOwnAndBelow(c.tree);
      ImportBelow(c);
    }

    /** Takes over the errors of the children of `c`, in any order. */
    method ImportBelow(c: Entry)
      requires Valid() && c.Valid() && this !in c.Repr
      modifies this`Errors, this`tree
      ensures Valid()
      ensures tree == old(tree).(Errors := old(tree).Errors + ErrorsBelow(c.tree, c.tree.Dir.Keys))
      decreases c.Repr, 0
    {
      hide *;
      c.Open();
      var keys := c.Dir.Keys;
      while keys != {}
        invariant keys <= c.tree.Dir.Keys && Valid() && c.Valid()
        invariant tree == old(tree).(Errors := tree.Errors)
        invariant tree.Errors + ErrorsBelow(c.tree, keys)
               == old(tree).Errors + ErrorsBelow(c.tree, c.tree.Dir.Keys)
      {
        var k :| k in keys;
        c.Below(k);
        ErrorsInAnyOrder(c.tree, keys, k);
        ImportErrors(c.Dir[k]);
        keys := keys - {k};
      }
      NoErrorsBelow(c.tree);
    }

    // -------------------------------------------------------------- merge

    method SetInfo(i: Info)
      requires Valid() && i.Name == info.Name
      modifies this`info, this`tree
      ensures Valid() && info == i && tree == old(tree).(info := i)
    {
      hide Valid, Child, Apart;
      Open();
      forall k | k in Dir { Below(k); }
      info := i;
      tree := tree.(info := i);
      Close();
    }

    /** Gives the entry the prefix and the namespace, if there are any. */
    method Mark(prefix: Option<string>, namespace: Option<string>)
      requires Valid()
      modifies this`info, this`tree
      ensures Valid() && info.Exts == old(info.Exts)
      ensures info == Mounted(old(tree), prefix, namespace, []).info && tree == old(tree).(info := info)
    {
      hide Valid, Here, Child, Apart;
      Fields();
      assert info.Exts + [] == info.Exts;
      if prefix.Some? {
        SetInfo(info.(Prefix := prefix));
      }
      if namespace.Some? {
        SetInfo(info.(namespace := namespace));
      }
    }

    /** One step of a merge: a copy of `c` becomes the child `k` unless there is one already. */
    method MergeChild(prefix: Option<string>, namespace: Option<string>, exts: seq<string>, k: string, c: Entry)
      requires Valid() && c.Valid() && this in Repr && Repr !! c.Repr && tree.hasDir && c.info.Name == k
      modifies this`Errors, this`Dir, this`Repr, this`tree
      ensures Valid() && fresh(Repr - old(Repr)) && old(Repr) <= Repr
      ensures forall j :: j in old(Dir) ==> j in Dir && Dir[j] == old(Dir)[j]
      ensures tree == if k in old(tree).Dir
                      then old(tree).(Errors := old(tree).Errors + multiset{DuplicateNode(k, old(tree).info.Name)})
                      else old(tree).(Dir := old(tree).Dir[k := Mounted(c.tree, prefix, namespace, exts)])
    {
      hide Valid, Here, Child, Apart;
      var v := c.Dup();
      Fields();
      v.Fields();
      v.Mark(prefix, namespace);
      if k in Dir {
        AddError(DuplicateNode(k, info.Name));
      } else {
        v.SetInfo(v.info.(Exts := v.info.Exts + exts));
        Put(k, v);
      }
    }

    /**
     Gives this entry a copy of each child of `oe` it does not have, with the
     prefix and the namespace if there are any, and an error for each it has.
     Its own children stay the entries they were.
     */
    method Merge(prefix: Option<string>, namespace: Option<string>, oe: Entry)
      requires Valid() && oe.Valid() && Repr !! oe.Repr && this in Repr
      requires hasDir || oe.Dir == map[]
      modifies this`Errors, this`Dir, this`Repr, this`tree
      ensures Valid() && fresh(Repr - old(Repr)) && old(Repr) <= Repr
      ensures tree == Merged(old(tree), oe.tree, prefix, namespace)
      ensures forall k :: k in old(Dir) ==> k in Dir && Dir[k] == old(Dir)[k]
    {
      hide *;
      Open();
      oe.Open();
      ImportErrors(oe);
      ghost var own, others := old(tree), oe.tree;
      MergedButAll(own, others, prefix, namespace);
      var keys := oe.Dir.Keys;
      while keys != {}
        invariant keys <= oe.Dir.Keys && oe.Valid()
        invariant Valid() && fresh(Repr - old(Repr)) && old(Repr) <= Repr
        invariant forall k :: k in old(Dir) ==> k in Dir && Dir[k] == old(Dir)[k]
        invariant tree == MergedBut(own, others, prefix, namespace, keys)
      {
        var k :| k in keys;
        oe.Below(k);
        MergedButOne(own, others, prefix, namespace, keys, k);
        MergeChild(prefix, namespace, oe.info.Exts, k, oe.Dir[k]);
        keys := keys - {k};
      }
      MergedButNone(own, others, prefix, namespace);
    }

    /** Adds `value` under its name, or reports that the name is taken. */
    method Add(value: Entry)
      requires Valid() && value.Valid() && this in Repr && value in value.Repr && Repr !! value.Repr && hasDir
      modifies this`Errors, this`Dir, this`Repr, this`tree, value`Parent
      ensures Valid() && value.Valid() && value.Parent == this
      ensures var k := value.info.Name;
              if k in old(Dir) then
                && Dir == old(Dir) && Repr == old(Repr)
                && tree == old(tree).(Errors := old(tree).Errors + multiset{DuplicateKey(k)})
              else
                && Dir == old(Dir)[k := value] && Repr == old(Repr) + value.Repr
                && tree == old(tree).(Dir := old(tree).Dir[k := value.tree])
    {
      hide Valid, Here, Child, Apart;
      Open();
      forall j | j in Dir { Below(j); }
      if value.info.Name in Dir {
        value.Parent := this;
        AddError(DuplicateKey(value.info.Name));
      } else {
        Put(value.info.Name, value);
      }
    }

    // -------------------------------------------------------------- implicit cases

    /** The case FixChoice makes for the child `ce` of the choice `e`. */
    constructor Around(e: Entry, ce: Entry)
      requires ce.tree.info == ce.info
      ensures Parent == e && hasDir && Errors == [] && Dir == map[ce.info.Name := ce]
      ensures tree == CaseAround(ce.tree, ce.tree) && info == tree.info && Repr == {this} + ce.Repr
    {
      Parent := e;
      info := Info(ImplicitCase(ce.info.Node), ce.info.Name, Case, ce.info.Config, ce.info.Prefix, None, [], "");
      Errors, hasDir, Dir := [], true, map[ce.info.Name := ce];
      Repr := {this} + ce.Repr;
      tree := CaseAround(ce.tree, ce.tree);
    }

    method Enclose(ce: Entry) returns (ne: Entry)
      requires ce.Valid() && ce in ce.Repr
      modifies ce`Parent
      ensures ne.Valid() && fresh(ne) && ne.Parent == this && ne.Repr == {ne} + ce.Repr
      ensures ne.tree == CaseAround(ce.tree, ce.tree)
      ensures ne.info == ne.tree.info && ne.info.Name == ce.info.Name && ne.info.Kind == Case
    {
      hide Valid, Here, Child, Apart;
      ce.Open();
      ne := new Entry.Around(this, ce);
      ce.Parent := ne;
      NoChildrenApart();
      ne.Rejoin(ce.info.Name, ce, map[], {}, map[]);
    }

    /** Puts a case around the child `ce`, called `k`. */
    method Wrap(k: string, ce: Entry)
      requires Valid() && this in Repr && k in Dir && Dir[k] == ce
      modifies this`Dir, this`Repr, this`tree, ce`Parent
      ensures Valid() && fresh(Repr - old(Repr)) && old(Repr) <= Repr
      ensures Dir.Keys == old(Dir).Keys && forall j :: j in Dir && j != k ==> Dir[j] == old(Dir)[j]
      ensures Dir[k].Repr == {Dir[k]} + ce.Repr && Dir[k].info.Kind == Case
      ensures tree == old(tree).(Dir := old(tree).Dir[k := CaseAround(old(tree).Dir[k], old(tree).Dir[k])])
    {
      hide *;
      Fields();
      Below(k);
      Without(k);
      ghost var others, repr, trees := Dir - {k}, Repr, tree.Dir - {k};
      var ne := Enclose(ce);
      Dir := Dir[k := ne];
      Repr := Repr + {ne};
      tree := tree.(Dir := tree.Dir[k := ne.tree]);
      Rejoin(k, ne, others, repr, trees);
    }

    /**
     Puts the bare children of every sound choice, here and below, into cases
     of their own. `o` is the tree as it was before a case was put around it.
     */
    method FixChoice(ghost o: Tree)
      requires Valid() && this in Repr && (tree == o || tree == CaseAround(o, o))
      modifies Repr
      ensures Valid() && fresh(Repr - old(Repr)) && old(Repr) <= Repr && this in Repr
      ensures Parent == old(Parent) && info == old(info) && tree == Fixed(old(tree))
      decreases o, tree != o, 1
    {
      hide Fixed, Wrapped, WithFixed, Valid, Here, Child, Apart;
      Fields();
      FixedByChildren(tree);
      ghost var around := tree != o;
      if info.Kind == Choice && |Errors| == 0 {
        WrapAll();
      }
      OriginsOf(o, around, old(tree), tree);
      FixChildren(o, around);
    }

    /** The first loop of FixChoice, for a sound choice. */
    method WrapAll()
      requires Valid() && this in Repr && Repairs(tree)
      modifies Repr
      ensures Valid() && fresh(Repr - old(Repr)) && old(Repr) <= Repr && this in Repr
      ensures Parent == old(Parent) && info == old(info) && tree == Wrapped(old(tree))
    {
      hide *;
      ghost var t := tree;
      Fields();
      NoneWrapped(t);
      var keys := Dir.Keys;
      ghost var done: set<string> := {};
      while keys != {}
        invariant keys + done == Dir.Keys == t.Dir.Keys && keys !! done
        invariant Valid() && fresh(Repr - old(Repr)) && old(Repr) <= Repr && this in Repr
        invariant Parent == old(Parent) && info == old(info)
        invariant tree == WithWrapped(t, done)
      {
        var k :| k in keys;
        Below(k);
        OneMoreWrapped(t, done, k);
        WrapIfBare(k, Dir[k]);
        keys, done := keys - {k}, done + {k};
      }
      AllWrapped(t);
    }

    method WrapIfBare(k: string, ce: Entry)
      requires Valid() && this in Repr && k in Dir && Dir[k] == ce
      modifies this`Dir, this`Repr, this`tree, ce`Parent
      ensures Valid() && fresh(Repr - old(Repr)) && old(Repr) <= Repr && this in Repr
      ensures Dir.Keys == old(Dir).Keys
      ensures var c := old(tree).Dir[k];
              tree == if c.info.Kind == Case then old(tree) else old(tree).(Dir := old(tree).Dir[k := CaseAround(c, c)])
    {
      hide *;
      Below(k);
      ce.Fields();
      if ce.info.Kind != Case {
        Wrap(k, ce);
      }
    }

    /** The second loop of FixChoice. */
    method FixChildren(ghost o: Tree, ghost around: bool)
      requires Valid() && this in Repr && Origins(o, around, tree)
      modifies Repr
      ensures Valid() && fresh(Repr - old(Repr)) && old(Repr) <= Repr && this in Repr
      ensures Parent == old(Parent) && info == old(info) && tree == WithFixed(old(tree), old(tree).Dir.Keys)
      decreases o, around, 0
    {
      hide *;
      ghost var t := tree;
      Fields();
      NoneFixed(t);
      var keys := Dir.Keys;
      ghost var done: set<string> := {};
      while keys != {}
        invariant keys + done == Dir.Keys == t.Dir.Keys && keys !! done
        invariant Valid() && fresh(Repr - old(Repr)) && old(Repr) <= Repr && this in Repr
        invariant Parent == old(Parent) && info == old(info)
        invariant tree == WithFixed(t, done)
      {
        var k :| k in keys;
        Below(k);
        OneMoreFixed(t, done, k);
        ghost var c := OriginOf(o, around, t, k);
        FixChild(k, Dir[k], c);
        keys, done := keys - {k}, done + {k};
      }
    }

    method FixChild(k: string, c: Entry, ghost o: Tree)
      requires Valid() && this in Repr && k in Dir && Dir[k] == c && (c.tree == o || c.tree == CaseAround(o, o))
      modifies this`Repr, this`tree, c.Repr
      ensures Valid() && fresh(Repr - old(Repr)) && old(Repr) <= Repr && this in Repr
      ensures Dir == old(Dir) && tree == old(tree).(Dir := old(tree).Dir[k := Fixed(old(tree).Dir[k])])
      ensures Parent == old(Parent) && info == old(info)
      decreases o, c.tree != o, 2
    {
      hide *;
      Fields();
      Below(k);
      Without(k);
      ghost var others, repr, trees := Dir - {k}, Repr, tree.Dir - {k};
      c.FixChoice(o);
      Repr := Repr + c.Repr;
      tree := tree.(Dir := tree.Dir[k := c.tree]);
      Rejoin(k, c, others, repr, trees);
    }

    /** The other children, apart from the child `k`. */
    lemma Without(k: string)
      requires Valid() && k in Dir
      ensures var others := Dir - {k};
              && Apart(others)
              && forall j :: j in others ==>
                   && Child(this, Repr, tree.Dir - {k}, j, others[j]) && others[j].Valid()
                   && others[j] in others[j].Repr && this !in others[j].Repr && others[j].Repr !! Dir[k].Repr
    {
      ApartWithout(Dir, k);
      forall j | j in Dir { Below(j); }
    }

    static lemma NoChildrenApart()
      ensures Apart(map[])
    {
    }

    static lemma ApartWithout(dir: map<string, Entry>, k: string)
      requires Apart(dir)
      ensures Apart(dir - {k})
      ensures forall j :: j in dir && j != k && k in dir ==> dir[j].Repr !! dir[k].Repr
    {
    }

    // -------------------------------------------------------------- paths

    lemma {:induction false} TreeIsKeyed()
      requires Valid()
      ensures Keyed(tree)
      decreases Repr
    {
      hide Valid;
      Fields();
      forall k | k in tree.Dir
        ensures tree.Dir[k].info.Name == k && Keyed(tree.Dir[k])
      {
        Below(k);
        Dir[k].Fields();
        Dir[k].TreeIsKeyed();
      }
    }

    /** Merges `oe` into the node at `p` below this one; everything else stays. */
    method MergeAt(p: Path, prefix: Option<string>, namespace: Option<string>, oe: Entry)
      requires Valid() && this in Repr && oe.Valid() && Repr !! oe.Repr
      requires Has(tree, p) && (At(tree, p).value.hasDir || oe.Dir == map[])
      modifies Repr
      ensures Valid() && fresh(Repr - old(Repr)) && old(Repr) <= Repr && this in Repr
      ensures Parent == old(Parent) && info == old(info)
      ensures tree == MergedAt(old(tree), p, oe.tree, prefix, namespace)
      decreases |p|, 1
    {
      hide Valid, Here, Child, Apart, Merged;
      Fields();
      if p == [] {
        Merge(prefix, namespace, oe);
        Fields();
      } else {
        Below(p[0]);
        MergeUnder(p, Dir[p[0]], prefix, namespace, oe);
      }
    }

    method MergeUnder(p: Path, c: Entry, prefix: Option<string>, namespace: Option<string>, oe: Entry)
      requires Valid() && this in Repr && oe.Valid() && Repr !! oe.Repr
      requires p != [] && p[0] in Dir && Dir[p[0]] == c && p[0] in tree.Dir
      requires Has(c.tree, p[1..]) && (At(c.tree, p[1..]).value.hasDir || oe.Dir == map[])
      modifies this`Repr, this`tree, c.Repr
      ensures Valid() && fresh(Repr - old(Repr)) && old(Repr) <= Repr && this in Repr
      ensures Parent == old(Parent) && info == old(info)
      ensures tree == old(tree).(Dir := old(tree).Dir[p[0] :=
                                   MergedAt(old(c.tree), p[1..], oe.tree, prefix, namespace)])
      decreases |p|, 0
    {
      hide *;
      Fields();
      Below(p[0]);
      Without(p[0]);
      ghost var others, repr, trees := Dir - {p[0]}, Repr, tree.Dir - {p[0]};
      c.MergeAt(p[1..], prefix, namespace, oe);
      Repr := Repr + c.Repr;
      tree := tree.(Dir := tree.Dir[p[0] := c.tree]);
      Rejoin(p[0], c, others, repr, trees);
    }

    /** The entry at `p` below this one. */
    ghost function Descend(p: Path): (e: Entry?)
      requires Valid()
      reads Repr
      ensures e != null <==> Has(tree, p)
      ensures e != null ==> e.Valid() && e.tree == At(tree, p).value && e in {this} + Repr
      decreases |p|
    {
      if p == [] then this
      else if p[0] in Dir then (Below(p[0]); Dir[p[0]].Descend(p[1..]))
      else (Fields(); null)
    }

    lemma AtSelf()
      requires Valid()
      ensures Descend([]) == this
    {
    }

    /** The parent of the entry at `p` is the entry one step up. */
    lemma {:induction false} Climb(p: Path)
      requires Valid() && Descend(p) != null
      ensures p == [] ==> Descend(p) == this
      ensures p != [] ==> Descend(p).Parent != null && Descend(p).Parent == Descend(p[..|p| - 1])
      decreases |p|
    {
      hide Valid;
      if p != [] {
        Below(p[0]);
        var c := Dir[p[0]];
        c.Climb(p[1..]);
        if |p| > 1 {
          assert p[..|p| - 1][0] == p[0] && p[..|p| - 1][1..] == p[1..][..|p[1..]| - 1];
        }
      }
    }

    /** The nearest mark on the way up, or the namespace `own` of the module at the root. */
    method Namespace(own: string, ghost root: Entry, ghost p: Path) returns (n: string)
      requires root.Valid() && root.Parent == null && root.Descend(p) == this
      ensures n == NamespaceBelow(root.tree, p, own)
    {
      hide Valid, Descend, NamespaceBelow;
      var e: Entry := this;
      ghost var q := p;
      root.Climb(p);
      while e.Parent != null
        invariant root.Descend(q) == e
        invariant NamespaceBelow(root.tree, p, own) == NamespaceBelow(root.tree, q, own)
        decreases |q|
      {
        root.Climb(q);
        ghost var up := q[..|q| - 1];
        assert q == up + [q[|q| - 1]];
        e.Fields();
        NearestMark(root.tree, up, q[|q| - 1], own);
        if e.info.namespace.Some? {
          return e.info.namespace.value;
        }
        e, q := e.Parent, up;
      }
      root.Climb(q);
      assert q == [];
      NoMark(root.tree, own);
      return own;
    }

    /** Whether the entry at the path `p` of `root` is read-only: the nearest setting decides, at the root none does. */
    method ReadOnly(ghost root: Entry, ghost p: Path) returns (b: bool)
      requires root.Valid() && root.Parent == null && root.Descend(p) == this
      ensures b == ReadOnlyBelow(root.tree, p, ReadOnlyHere(root.tree.info, false))
      decreases |p|
    {
      hide Valid, Descend, ReadOnlyBelow;
      root.Climb(p);
      Fields();
      if info.Kind == Output {
        b := true;
      } else if info.Config == Unset {
        if Parent == null {
          b := false;
        } else {
          b := Parent.ReadOnly(root, p[..|p| - 1]);
        }
      } else {
        b := info.Config == False;
      }
      if p == [] {
        ReadOnlyTop(root.tree, ReadOnlyHere(root.tree.info, false));
      } else {
        assert p == p[..|p| - 1] + [p[|p| - 1]];
        NearestConfig(root.tree, p[..|p| - 1], p[|p| - 1], ReadOnlyHere(root.tree.info, false));
      }
    }

    /** Walks the parts of a path from this entry, which is at `p`; null when there is no such node. */
    method Find(parts: seq<string>, p: Path, ghost root: Entry) returns (e: Entry?, q: Path)
      requires root.Valid() && root.Parent == null && root.Descend(p) == this
      ensures var r := Resolve(root.tree, p, parts);
              if r.Some? then e == root.Descend(r.value) && q == r.value else e == null
    {
      hide Valid, Descend, Step;
      e, q := this, p;
      for i := 0 to |parts|
        invariant e == null ==> Resolve(root.tree, p, parts) == None
        invariant e != null ==>
                    root.Descend(q) == e && Resolve(root.tree, p, parts) == Resolve(root.tree, q, parts[i..])
      {
        assert parts[i..][0] == parts[i] && parts[i..][1..] == parts[i + 1..];
        if e == null {
          return;
        }
        StepIsHeading(root.tree, q, parts[i]);
        e := e.Move(parts[i], root, q);
        if e != null {
          q := Heading(q, parts[i]).value;
        }
      }
    }

    /** One part of a path, read at this entry. */
    method Move(part: string, ghost root: Entry, ghost q: Path) returns (r: Entry?)
      requires root.Valid() && root.Parent == null && root.Descend(q) == this
      ensures var s := Step(root.tree, q, part);
              r == if s.Some? then root.Descend(s.value) else null
    {
      hide Valid, Descend, Has;
      root.Climb(q);
      if part == "." {
        return this;
      } else if part == ".." {
        return Parent;
      } else {
        var n := LocalName(part);
        if n == "." {
          return this;
        } else if n == "" || n == ".." {
          return null;
        }
        root.DescendOne(q, n);
        return if n in Dir then Dir[n] else null;
      }
    }

    lemma {:induction false} DescendOne(q: Path, n: string)
      requires Valid() && Descend(q) != null
      ensures Descend(q + [n]) == if n in Descend(q).Dir then Descend(q).Dir[n] else null
      decreases |q|
    {
      hide Valid;
      if q == [] {
        assert q + [n] == [n];
        if n in Dir { Below(n); assert [n][1..] == []; }
      } else {
        Below(q[0]);
        assert (q + [n])[0] == q[0] && (q + [n])[1..] == q[1..] + [n];
        Dir[q[0]].DescendOne(q[1..], n);
      }
    }
  }

  // ---------------------------------------------------------------- how far a merge has come

  /** `t` merged with `o`, but without the children `keys` of `o`. */
  ghost function MergedBut(t: Tree, o: Tree, prefix: Option<string>, namespace: Option<string>, keys: set<string>)
    : Tree
  {
    t.(Errors := t.Errors + AllErrors(o) + multiset(ClashesBut(t, o, keys)),
       Dir := ChildrenBut(t, o, prefix, namespace, keys))
  }

  ghost function ClashesBut(t: Tree, o: Tree, keys: set<string>): set<Error> {
    set k | k in t.Dir && k in o.Dir && k !in keys :: DuplicateNode(k, t.info.Name)
  }

  function ChildrenBut(t: Tree, o: Tree, prefix: Option<string>, namespace: Option<string>, keys: set<string>)
    : map<string, Tree>
  {
    map k | k in t.Dir.Keys + (o.Dir.Keys - keys) ::
      if k in t.Dir then t.Dir[k] else Mounted(o.Dir[k], prefix, namespace, o.info.Exts)
  }

  lemma MergedButAll(t: Tree, o: Tree, prefix: Option<string>, namespace: Option<string>)
    ensures MergedBut(t, o, prefix, namespace, o.Dir.Keys) == t.(Errors := t.Errors + AllErrors(o))
  {
    hide AllErrors, Mounted;
    assert ClashesBut(t, o, o.Dir.Keys) == {};
    assert ChildrenBut(t, o, prefix, namespace, o.Dir.Keys) == t.Dir;
  }

  lemma MergedButNone(t: Tree, o: Tree, prefix: Option<string>, namespace: Option<string>)
    ensures MergedBut(t, o, prefix, namespace, {}) == Merged(t, o, prefix, namespace)
  {
    hide AllErrors, Mounted;
    assert ClashesBut(t, o, {}) == set k | k in t.Dir && k in o.Dir :: DuplicateNode(k, t.info.Name);
    assert ChildrenBut(t, o, prefix, namespace, {}) == Merged(t, o, prefix, namespace).Dir;
  }

  lemma MergedButOne(t: Tree, o: Tree, prefix: Option<string>, namespace: Option<string>, keys: set<string>, k: string)
    requires k in keys && keys <= o.Dir.Keys
    ensures var m, n := MergedBut(t, o, prefix, namespace, keys), MergedBut(t, o, prefix, namespace, keys - {k});
            && m.info == t.info && m.hasDir == t.hasDir && (k in m.Dir <==> k in t.Dir)
            && (k in t.Dir ==> n == m.(Errors := m.Errors + multiset{DuplicateNode(k, t.info.Name)}))
            && (k !in t.Dir ==> n == m.(Dir := m.Dir[k := Mounted(o.Dir[k], prefix, namespace, o.info.Exts)]))
  {
    hide AllErrors, Mounted, ClashesBut;
    OneClashLess(t, o, keys, k);
    OneChildLess(t, o, prefix, namespace, keys, k);
  }

  lemma OneClashLess(t: Tree, o: Tree, keys: set<string>, k: string)
    requires k in keys && keys <= o.Dir.Keys
    ensures multiset(ClashesBut(t, o, keys - {k}))
         == multiset(ClashesBut(t, o, keys))
            + if k in t.Dir then multiset{DuplicateNode(k, t.info.Name)} else multiset{}
  {
    var a, b := ClashesBut(t, o, keys), ClashesBut(t, o, keys - {k});
    var e := DuplicateNode(k, t.info.Name);
    if k in t.Dir {
      assert b == a + {e} && e !in a;
    } else {
      assert b == a;
    }
  }

  lemma OneChildLess(t: Tree, o: Tree, prefix: Option<string>, namespace: Option<string>, keys: set<string>, k: string)
    requires k in keys && keys <= o.Dir.Keys
    ensures ChildrenBut(t, o, prefix, namespace, keys - {k})
         == if k in t.Dir then ChildrenBut(t, o, prefix, namespace, keys)
            else ChildrenBut(t, o, prefix, namespace, keys)[k := Mounted(o.Dir[k], prefix, namespace, o.info.Exts)]
  {
    hide Mounted;
  }
}
