/** The identity sweep of pkg/yang/identity.go, over a dictionary visited in any order. */
module Identities {

  /** An identity; a null base is one that cannot be resolved. */
  class Identity {
    const Base: seq<Identity?>
    var Values: seq<Identity>

    constructor (bases: seq<Identity?>)
      ensures Base == bases && Values == []
    {
      Base := bases;
      Values := [];
    }
  }

  type Ranks = map<Identity, nat>

  /** Bases are in the dictionary, and no identity derives from itself: bases rank higher. */
  ghost predicate Acyclic(dict: set<Identity>, rank: Ranks) {
    forall c :: c in dict ==>
      c in rank && forall p: Identity :: p in c.Base ==> p in dict && p in rank && rank[c] < rank[p]
  }

  /** The identities that name `p` as a base. */
  ghost function Children(dict: set<Identity>, p: Identity): set<Identity> {
    set c | c in dict && p in c.Base
  }

  /** The strict descendants of `p`. */
  ghost function Descendants(dict: set<Identity>, rank: Ranks, p: Identity): set<Identity>
    requires Acyclic(dict, rank) && p in dict
    decreases rank[p]
  {
    set c | c in dict && (p in c.Base || exists k :: k in dict && p in k.Base && c in Descendants(dict, rank, k))
  }

  /** A chain of base links from its first element down to its last. */
  ghost predicate IsChain(dict: set<Identity>, older path: seq<Identity>) {
    && |path| >= 2
    && (forall i :: 0 <= i < |path| ==> path[i] in dict)
    && (forall i :: 0 < i < |path| ==> path[i - 1] in path[i].Base)
  }

  ghost predicate Derives(dict: set<Identity>, c: Identity, p: Identity) {
    exists path :: IsChain(dict, path) && path[0] == p && path[|path| - 1] == c
  }

  lemma {:induction false} ChainDescends(dict: set<Identity>, rank: Ranks, path: seq<Identity>)
    requires Acyclic(dict, rank) && IsChain(dict, path)
    ensures path[|path| - 1] in Descendants(dict, rank, path[0])
    decreases |path|
  {
    if |path| > 2 {
      assert forall i :: 0 < i < |path[1..]| ==> path[1..][i] == path[i + 1] && path[1..][i - 1] == path[i];
      ChainDescends(dict, rank, path[1..]);
    }
  }

  lemma {:induction false} DescendantHasChain(dict: set<Identity>, rank: Ranks, p: Identity, c: Identity)
    returns (path: seq<Identity>)
    requires Acyclic(dict, rank) && p in dict && c in Descendants(dict, rank, p)
    ensures IsChain(dict, path) && path[0] == p && path[|path| - 1] == c
    decreases rank[p]
  {
    if p in c.Base {
      path := [p, c];
    } else {
      var k :| k in dict && p in k.Base && c in Descendants(dict, rank, k);
      var rest := DescendantHasChain(dict, rank, k, c);
      path := [p] + rest;
    }
  }

  /** Descendants are what a chain of base statements leads to, whatever the ranks. */
  lemma DescendantsAreDerived(dict: set<Identity>, rank: Ranks, p: Identity, c: Identity)
    requires Acyclic(dict, rank) && p in dict
    ensures c in Descendants(dict, rank, p) <==> Derives(dict, c, p)
  {
    hide Descendants;
    if c in Descendants(dict, rank, p) {
      var path := DescendantHasChain(dict, rank, p, c);
    }
    if Derives(dict, c, p) {
      var path :| IsChain(dict, path) && path[0] == p && path[|path| - 1] == c;
      ChainDescends(dict, rank, path);
    }
  }

  lemma {:induction false} DescendantsRank(dict: set<Identity>, rank: Ranks, p: Identity, c: Identity)
    requires Acyclic(dict, rank) && p in dict && c in Descendants(dict, rank, p)
    ensures c in dict && c in rank && rank[c] < rank[p]
    decreases rank[p]
  {
    if p !in c.Base {
      var k :| k in dict && p in k.Base && c in Descendants(dict, rank, k);
      DescendantsRank(dict, rank, k, c);
    }
  }

  lemma {:induction false} DescendantsTransitive(dict: set<Identity>, rank: Ranks, p: Identity, k: Identity)
    requires Acyclic(dict, rank) && p in dict && k in Descendants(dict, rank, p) && k in dict
    ensures Descendants(dict, rank, k) <= Descendants(dict, rank, p)
    decreases rank[p]
  {
    if p !in k.Base {
      var m :| m in dict && p in m.Base && k in Descendants(dict, rank, m);
      DescendantsTransitive(dict, rank, m, k);
    }
  }

  function ToSet(ids: seq<Identity>): set<Identity> {
    set id | id in ids
  }

  predicate NoDuplicates(ids: seq<Identity>) {
    forall i, j :: 0 <= i < j < |ids| ==> ids[i] != ids[j]
  }

  /** Every identity's values hold at least its children and at most its descendants. */
  ghost predicate Between(dict: set<Identity>, rank: Ranks)
    requires Acyclic(dict, rank)
    reads dict
  {
    forall x :: x in dict ==>
      Children(dict, x) <= ToSet(x.Values) <= Descendants(dict, rank, x)
  }

  method AppendIfNotIn(ids: seq<Identity>, chk: Identity) returns (r: seq<Identity>)
    requires NoDuplicates(ids)
    ensures NoDuplicates(r) && ToSet(r) == ToSet(ids) + {chk}
  {
    for i := 0 to |ids|
      invariant forall k :: 0 <= k < i ==> ids[k] != chk
    {
      if ids[i] == chk {
        return ids;
      }
    }
    return ids + [chk];
  }

  /** The children's descendants, and the children, are all the descendants. */
  lemma ValuesCover(dict: set<Identity>, rank: Ranks, r: Identity, values: set<Identity>, all: set<Identity>)
    requires Acyclic(dict, rank) && r in dict
    requires Children(dict, r) <= values <= Descendants(dict, rank, r)
    requires forall c :: c in all <==>
               c in values || exists k :: k in values && k in dict && c in Descendants(dict, rank, k)
    ensures all == Descendants(dict, rank, r)
  {
    forall c | c in all
      ensures c in Descendants(dict, rank, r)
    {
      if c !in values {
        var k :| k in values && k in dict && c in Descendants(dict, rank, k);
        DescendantsTransitive(dict, rank, r, k);
      }
    }
    forall c | c in Descendants(dict, rank, r)
      ensures c in all
    {
      if r in c.Base {
        assert c in Children(dict, r);
      } else {
        var k :| k in dict && r in k.Base && c in Descendants(dict, rank, k);
        assert k in Children(dict, r);
      }
    }
  }

  /** What the first `n` values of an identity contribute. */
  ghost function Gathered(dict: set<Identity>, rank: Ranks, values: seq<Identity>): set<Identity>
    requires Acyclic(dict, rank)
    requires forall k :: k in values ==> k in dict
  {
    if values == [] then {}
    else
      var k := values[|values| - 1];
      Gathered(dict, rank, values[..|values| - 1]) + {k} + Descendants(dict, rank, k)
  }

  lemma {:induction false} GatheredMembers(dict: set<Identity>, rank: Ranks, values: seq<Identity>, c: Identity)
    requires Acyclic(dict, rank)
    requires forall k :: k in values ==> k in dict
    ensures c in Gathered(dict, rank, values) <==>
              c in values || exists k :: k in values && k in dict && c in Descendants(dict, rank, k)
    decreases values
  {
    hide Descendants;
    if values != [] {
      var init, last := values[..|values| - 1], values[|values| - 1];
      assert values == init + [last];
      assert forall k :: k in values <==> k in init || k == last;
      GatheredMembers(dict, rank, init, c);
      assert c in Gathered(dict, rank, values) <==>
               c in Gathered(dict, rank, init) || c == last || c in Descendants(dict, rank, last);
      if k :| k in values && k in dict && c in Descendants(dict, rank, k) {
        if k != last { assert k in init; }
      }
    }
  }

  lemma GatheredAll(dict: set<Identity>, rank: Ranks, r: Identity, values: seq<Identity>)
    requires Acyclic(dict, rank) && r in dict
    requires Children(dict, r) <= ToSet(values) <= Descendants(dict, rank, r)
    requires forall k :: k in values ==> k in dict
    ensures Gathered(dict, rank, values) == Descendants(dict, rank, r)
  {
    hide Descendants, Gathered;
    forall c
      ensures c in Gathered(dict, rank, values) <==>
                c in ToSet(values) || exists k :: k in ToSet(values) && k in dict && c in Descendants(dict, rank, k)
    {
      GatheredMembers(dict, rank, values, c);
    }
    ValuesCover(dict, rank, r, ToSet(values), Gathered(dict, rank, values));
  }

  lemma ValuesInDict(dict: set<Identity>, rank: Ranks, r: Identity)
    requires Acyclic(dict, rank) && r in dict && Between(dict, rank)
    ensures forall k :: k in r.Values ==> k in dict && k in rank && rank[k] < rank[r]
  {
    forall k | k in r.Values
      ensures k in dict && k in rank && rank[k] < rank[r]
    {
      assert k in ToSet(r.Values);
      DescendantsRank(dict, rank, r, k);
    }
  }

  /** Adds `r` and everything below it to `ids`. */
  method AddChildren(r: Identity, ids: seq<Identity>, ghost dict: set<Identity>, ghost rank: Ranks)
    returns (res: seq<Identity>)
    requires Acyclic(dict, rank) && r in dict && Between(dict, rank)
    requires NoDuplicates(ids)
    ensures NoDuplicates(res)
    ensures ToSet(res) == ToSet(ids) + {r} + Descendants(dict, rank, r)
    decreases rank[r]
  {
    hide Descendants, Between, Acyclic;
    res := AppendIfNotIn(ids, r);
    ghost var start := ToSet(res);
    ValuesInDict(dict, rank, r);
    for i := 0 to |r.Values|
      invariant NoDuplicates(res)
      invariant ToSet(res) == start + Gathered(dict, rank, r.Values[..i])
    {
      assert r.Values[..i + 1][..i] == r.Values[..i];
      res := AddChildren(r.Values[i], res, dict, rank);
    }
    assert r.Values[..|r.Values|] == r.Values;
    BetweenAt(dict, rank, r);
    GatheredAll(dict, rank, r, r.Values);
  }

  lemma BetweenAt(dict: set<Identity>, rank: Ranks, r: Identity)
    requires Acyclic(dict, rank) && r in dict && Between(dict, rank)
    ensures Children(dict, r) <= ToSet(r.Values) <= Descendants(dict, rank, r)
  {
  }

  /** An identity with a base that does not resolve. */
  ghost predicate HasBadBase(dict: set<Identity>) {
    exists i :: i in dict && null in i.Base
  }

  /** Values before linking: nothing, or what an earlier sweep left. */
  ghost predicate AtMostDescendants(dict: set<Identity>, rank: Ranks)
    requires Acyclic(dict, rank)
    reads dict
  {
    forall x :: x in dict ==> ToSet(x.Values) <= Descendants(dict, rank, x)
  }

  /** Links the bases of one identity to it. */
  method LinkOne(i: Identity, ghost dict: set<Identity>, ghost rank: Ranks) returns (errs: nat)
    requires Acyclic(dict, rank) && i in dict && AtMostDescendants(dict, rank)
    modifies dict
    ensures AtMostDescendants(dict, rank)
    ensures forall x :: x in dict ==> old(ToSet(x.Values)) <= ToSet(x.Values)
    ensures forall x: Identity :: x in i.Base ==> i in ToSet(x.Values)
    ensures errs > 0 <==> null in i.Base
  {
    hide Descendants;
    errs := 0;
    for k := 0 to |i.Base|
      invariant AtMostDescendants(dict, rank)
      invariant forall x :: x in dict ==> old(ToSet(x.Values)) <= ToSet(x.Values)
      invariant forall j :: 0 <= j < k && i.Base[j] != null ==> i in ToSet(i.Base[j].Values)
      invariant errs > 0 <==> exists j :: 0 <= j < k && i.Base[j] == null
    {
      var b := i.Base[k];
      if b == null {
        errs := errs + 1;
      } else {
        assert b in i.Base && b in dict;
        ChildDescends(dict, rank, b, i);
        b.Values := b.Values + [i];
      }
    }
  }

  lemma ChildDescends(dict: set<Identity>, rank: Ranks, p: Identity, c: Identity)
    requires Acyclic(dict, rank) && c in dict && p in dict && p in c.Base
    ensures c in Descendants(dict, rank, p)
  {
  }

  /**
   Links every identity to its bases and closes the links, visiting the
   dictionary in any order, also when an earlier run left its result behind:
   the values of every identity are exactly its descendants, each once.
   */
  method ResolveIdentities(dict: set<Identity>, ghost rank: Ranks) returns (errs: nat)
    requires Acyclic(dict, rank) && AtMostDescendants(dict, rank)
    modifies dict
    ensures forall x :: x in dict ==> NoDuplicates(x.Values) && ToSet(x.Values) == Descendants(dict, rank, x)
    ensures errs > 0 <==> HasBadBase(dict)
  {
    hide Descendants;
    errs := 0;
    var todo := dict;
    while todo != {}
      invariant todo <= dict && AtMostDescendants(dict, rank)
      invariant forall c, p: Identity :: c in dict - todo && p in c.Base ==> c in ToSet(p.Values)
      invariant errs > 0 <==> exists i :: i in dict - todo && null in i.Base
      decreases |todo|
    {
      var i :| i in todo;
      var e := LinkOne(i, dict, rank);
      errs := errs + e;
      todo := todo - {i};
    }
    todo := dict;
    while todo != {}
      invariant todo <= dict && Between(dict, rank)
      invariant forall x :: x in dict - todo ==> NoDuplicates(x.Values) && ToSet(x.Values) == Descendants(dict, rank, x)
      decreases |todo|
    {
      var i :| i in todo;
      CloseOne(i, dict, rank);
      todo := todo - {i};
    }
  }

  /** Replaces the values of one identity by its descendants. */
  method CloseOne(i: Identity, ghost dict: set<Identity>, ghost rank: Ranks)
    requires Acyclic(dict, rank) && i in dict && Between(dict, rank)
    modifies i
    ensures Between(dict, rank)
    ensures NoDuplicates(i.Values) && ToSet(i.Values) == Descendants(dict, rank, i)
  {
    hide Descendants, Acyclic;
    var newValues: seq<Identity> := [];
    ValuesInDict(dict, rank, i);
    for k := 0 to |i.Values|
      modifies {}
      invariant NoDuplicates(newValues)
      invariant ToSet(newValues) == Gathered(dict, rank, i.Values[..k])
    {
      assert i.Values[..k + 1][..k] == i.Values[..k];
      newValues := AddChildren(i.Values[k], newValues, dict, rank);
    }
    assert i.Values[..|i.Values|] == i.Values;
    BetweenAt(dict, rank, i);
    GatheredAll(dict, rank, i, i.Values);
    i.Values := newValues;
  }
}
