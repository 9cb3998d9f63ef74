/** The frontier traversal of `traverse`: the root's siblings, then the
    siblings of every ancestor below `body`, each group in document order. */
module Traversal {
  import opened Wrappers
  import opened DomTree

  /** `s` with every occurrence of `e` skipped (the `continue` of the
      sibling loop), keeping the order of the rest. */
  function Without(s: seq<Elem>, e: Elem): (r: seq<Elem>)
    ensures forall x :: x in r <==> x in s && x != e
    ensures Distinct(s) ==> Distinct(r)
    ensures |r| <= |s|
  {
    if s == [] then []
    else if s[0] == e then Without(s[1..], e)
    else
      var rest := Without(s[1..], e);
      assert Distinct(s) ==> Distinct(s[1..]) && s[0] !in s[1..];
      assert forall k :: 0 < k < |[s[0]] + rest| ==> ([s[0]] + rest)[k] == rest[k - 1];
      [s[0]] + rest
  }

  lemma {:induction false} WithoutAppend(a: seq<Elem>, b: seq<Elem>, e: Elem)
    ensures Without(a + b, e) == Without(a, e) + Without(b, e)
    decreases |a|
  {
    if a != [] {
      assert (a + b)[1..] == a[1..] + b;
      WithoutAppend(a[1..], b, e);
    } else {
      assert a + b == b;
    }
  }

  /** Removing an element that occurs exactly once cuts the sequence at it. */
  lemma {:induction false} WithoutSplits(s: seq<Elem>, i: nat, e: Elem)
    requires Distinct(s) && i < |s| && s[i] == e
    ensures Without(s, e) == s[..i] + s[i + 1..]
  {
    assert s == s[..i] + [e] + s[i + 1..];
    WithoutAppend(s[..i] + [e], s[i + 1..], e);
    WithoutAppend(s[..i], [e], e);
    WithoutAbsent(s[..i], e);
    WithoutAbsent(s[i + 1..], e);
  }

  lemma {:induction false} WithoutAbsent(s: seq<Elem>, e: Elem)
    requires e !in s
    ensures Without(s, e) == s
  {
    if s != [] {
      WithoutAbsent(s[1..], e);
      assert s == [s[0]] + s[1..];
    }
  }

  /** `getSiblings`: the parent's children without `e`, and nothing when `e`
      has no parent. */
  function Siblings(t: Tree, e: Elem): (r: seq<Elem>)
    requires Valid(t)
    ensures forall v :: v in r <==> IsSibling(t, v, e)
    ensures Distinct(r)
    ensures e !in t.parent ==> r == []
  {
    match ParentOf(t, e)
    case None => []
    case Some(p) => Without(t.children[p], e)
  }

  /** The siblings come out in the parent's child order, with `e` cut out of
      its own position. */
  lemma SiblingsInDocumentOrder(t: Tree, e: Elem) returns (i: nat)
    requires Valid(t) && e in t.parent
    ensures i < |t.children[t.parent[e]]| && t.children[t.parent[e]][i] == e
    ensures Siblings(t, e) == t.children[t.parent[e]][..i] + t.children[t.parent[e]][i + 1..]
  {
    var s := t.children[t.parent[e]];
    i :| 0 <= i < |s| && s[i] == e;
    WithoutSplits(s, i, e);
  }

  /** The upward walk of `traverseParents`, starting at `o` (a parent link)
      and stopping before `body` or a missing parent. */
  function AncestorsFrom(t: Tree, o: Option<Elem>): (r: seq<Elem>)
    requires Valid(t)
    ensures t.body !in r
    ensures o.None? || o == Some(t.body) ==> r == []
    ensures o.Some? && o.value != t.body ==> |r| > 0 && r[0] == o.value
    decreases if o.Some? then Depth(t, o.value) + 1 else 0
  {
    match o
    case None => []
    case Some(p) =>
      if p == t.body then []
      else
        ParentIsShallower(t, p);
        [p] + AncestorsFrom(t, ParentOf(t, p))
  }

  /** `traverseParents(e)`: the chain of ancestors from the immediate parent
      upward, ending before `body` or where there is no parent. */
  function Ancestors(t: Tree, e: Elem): (r: seq<Elem>)
    requires Valid(t)
    ensures t.body !in r
    ensures |r| > 0 <==> ParentOf(t, e).Some? && ParentOf(t, e) != Some(t.body)
    ensures |r| > 0 ==> ParentOf(t, e) == Some(r[0])
  {
    AncestorsFrom(t, ParentOf(t, e))
  }

  /** The walk follows parent links one step at a time and stops exactly
      where the next parent is missing or is `body`. */
  lemma {:induction false} AncestorsChain(t: Tree, e: Elem)
    requires Valid(t)
    ensures var r := Ancestors(t, e);
      && (forall i :: 0 < i < |r| ==> ParentOf(t, r[i - 1]) == Some(r[i]))
      && (|r| > 0 ==> ParentOf(t, r[|r| - 1]).None? || ParentOf(t, r[|r| - 1]) == Some(t.body))
    decreases Depth(t, e)
  {
    var r := Ancestors(t, e);
    if |r| > 0 {
      var p := r[0];
      ParentIsShallower(t, e);
      AncestorsChain(t, p);
      assert r == [p] + Ancestors(t, p);
    }
  }

  /** The walk yields exactly the ancestors reached without passing `body`. */
  lemma {:induction false} AncestorsExact(t: Tree, e: Elem)
    requires Valid(t)
    ensures forall a :: a in Ancestors(t, e) <==> Guarded(t, a, e)
    decreases Depth(t, e)
  {
    if e in t.parent && t.parent[e] != t.body {
      var p := t.parent[e];
      ParentIsShallower(t, e);
      AncestorsExact(t, p);
      assert Ancestors(t, e) == [p] + Ancestors(t, p);
    }
  }

  /** Every element the walk yields is a proper ancestor; when `body` is an
      ancestor, the walk yields neither `body` nor anything above it. */
  lemma AncestorsBelowBody(t: Tree, e: Elem)
    requires Valid(t)
    ensures forall a :: a in Ancestors(t, e) ==> IsAncestor(t, a, e)
    ensures IsAncestor(t, t.body, e) ==>
      forall a :: a in Ancestors(t, e) ==> a != t.body && !IsAncestor(t, a, t.body)
  {
    AncestorsExact(t, e);
    forall a | a in Ancestors(t, e)
      ensures IsAncestor(t, a, e)
      ensures IsAncestor(t, t.body, e) ==> !IsAncestor(t, a, t.body)
    {
      GuardedIsAncestor(t, a, e);
      if IsAncestor(t, t.body, e) && IsAncestor(t, a, t.body) {
        GuardedBelowBody(t, a, e);
        AncestorIsShallower(t, t.body, a);
        AncestorIsShallower(t, a, t.body);
      }
    }
  }

  /** The siblings of each element of `ps`, level after level. */
  function Levels(t: Tree, ps: seq<Elem>): (r: seq<Elem>)
    requires Valid(t)
  {
    if ps == [] then [] else Siblings(t, ps[0]) + Levels(t, ps[1..])
  }

  /** An element is in some level exactly when it is a sibling of one of `ps`. */
  lemma {:induction false} LevelsMembership(t: Tree, ps: seq<Elem>)
    requires Valid(t)
    ensures forall v :: v in Levels(t, ps) <==> exists k :: 0 <= k < |ps| && IsSibling(t, v, ps[k])
  {
    if ps != [] {
      LevelsMembership(t, ps[1..]);
      assert forall k :: 0 < k < |ps| ==> ps[k] == ps[1..][k - 1];
    }
  }

  /** The visit order of `traverse(root, cb)`. */
  function Frontier(t: Tree, root: Elem): (r: seq<Elem>)
    requires Valid(t)
    ensures Siblings(t, root) <= r
    ensures root !in t.parent ==> r == []
  {
    Siblings(t, root) + Levels(t, Ancestors(t, root))
  }

  /** The frontier of an element is its own siblings followed by the
      frontier of its parent, unless that parent is missing or `body`. */
  lemma FrontierUnfold(t: Tree, x: Elem)
    requires Valid(t)
    ensures x in t.parent && t.parent[x] != t.body ==>
      Frontier(t, x) == Siblings(t, x) + Frontier(t, t.parent[x])
    ensures x !in t.parent || t.parent[x] == t.body ==> Frontier(t, x) == Siblings(t, x)
  {
    if x in t.parent && t.parent[x] != t.body {
      var p := t.parent[x];
      var ps := Ancestors(t, x);
      assert ps == [p] + Ancestors(t, p);
      assert ps[1..] == Ancestors(t, p);
    }
  }

  /** The reference description of the visited set: the root's siblings and
      the siblings of every ancestor reached without passing `body`. */
  ghost predicate InFrontier(t: Tree, root: Elem, v: Elem)
    requires Valid(t)
  {
    IsSibling(t, v, root) || exists p :: Guarded(t, p, root) && IsSibling(t, v, p)
  }

  /** Coverage in both directions: `traverse` visits exactly the frontier. */
  lemma FrontierExact(t: Tree, root: Elem)
    requires Valid(t)
    ensures forall v :: v in Frontier(t, root) <==> InFrontier(t, root, v)
  {
    var ps := Ancestors(t, root);
    AncestorsExact(t, root);
    LevelsMembership(t, ps);
    forall v
      ensures v in Frontier(t, root) <==> InFrontier(t, root, v)
    {
      if v in Levels(t, ps) {
        var k :| 0 <= k < |ps| && IsSibling(t, v, ps[k]);
        assert Guarded(t, ps[k], root);
      }
      if !IsSibling(t, v, root) && InFrontier(t, root, v) {
        var p :| Guarded(t, p, root) && IsSibling(t, v, p);
        assert p in ps;
        var k :| 0 <= k < |ps| && ps[k] == p;
        assert v in Levels(t, ps);
      }
    }
  }

  /** Every element the frontier of `x` visits hangs strictly above `x`'s
      own level: its parent is shallower than `x`. */
  lemma {:induction false} FrontierParentsAbove(t: Tree, x: Elem)
    requires Valid(t)
    ensures forall v :: v in Frontier(t, x) ==>
      v in t.parent && x in t.parent && Depth(t, t.parent[v]) < Depth(t, x)
    decreases Depth(t, x)
  {
    FrontierUnfold(t, x);
    if x in t.parent {
      ParentIsShallower(t, x);
      if t.parent[x] != t.body {
        FrontierParentsAbove(t, t.parent[x]);
      }
    }
  }

  lemma DistinctAppend(a: seq<Elem>, b: seq<Elem>)
    requires Distinct(a) && Distinct(b)
    requires forall v :: v in a ==> v !in b
    ensures Distinct(a + b)
  {
    forall i, j | 0 <= i < j < |a + b|
      ensures (a + b)[i] != (a + b)[j]
    {
      if i < |a| && j >= |a| {
        assert (a + b)[i] in a && (a + b)[j] in b;
      }
    }
  }

  /** Visit-once: no element is visited twice, since the sibling groups of
      different levels have different parents. */
  lemma {:induction false} FrontierDistinct(t: Tree, x: Elem)
    requires Valid(t)
    ensures Distinct(Frontier(t, x))
    decreases Depth(t, x)
  {
    FrontierUnfold(t, x);
    if x in t.parent && t.parent[x] != t.body {
      var p := t.parent[x];
      ParentIsShallower(t, x);
      FrontierDistinct(t, p);
      FrontierParentsAbove(t, p);
      DistinctAppend(Siblings(t, x), Frontier(t, p));
    }
  }

  /** Exclusion: `traverse` never visits the root, an ancestor of the root,
      or a descendant of the root. */
  lemma {:induction false} FrontierExcludesPath(t: Tree, x: Elem)
    requires Valid(t)
    ensures forall v :: v in Frontier(t, x) ==>
      v != x && !IsAncestor(t, v, x) && !IsAncestor(t, x, v)
    decreases Depth(t, x)
  {
    FrontierUnfold(t, x);
    forall v | v in Siblings(t, x)
      ensures v != x && !IsAncestor(t, v, x) && !IsAncestor(t, x, v)
    {
      SiblingUnrelated(t, v, x);
    }
    if x in t.parent && t.parent[x] != t.body {
      var p := t.parent[x];
      ParentIsShallower(t, x);
      FrontierExcludesPath(t, p);
      forall v | v in Frontier(t, p)
        ensures v != x && !IsAncestor(t, v, x) && !IsAncestor(t, x, v)
      {
        if IsAncestor(t, x, v) {
          AncestorTransitive(t, p, x, v);
        }
      }
    }
  }

  /** When `body` is an ancestor of the root, everything `traverse` visits
      lies inside `body`. */
  lemma {:induction false} FrontierInsideBody(t: Tree, x: Elem)
    requires Valid(t) && IsAncestor(t, t.body, x)
    ensures forall v :: v in Frontier(t, x) ==> IsAncestor(t, t.body, v)
    decreases Depth(t, x)
  {
    FrontierUnfold(t, x);
    var p := t.parent[x];
    ParentIsShallower(t, x);
    if p != t.body {
      FrontierInsideBody(t, p);
    }
  }

  /** `traverse`, with the two loops of the source: first the root's
      sibling loop, then the upward walk with a sibling loop per ancestor.
      The callback is recorded as the sequence of elements it receives. */
  method Traverse(t: Tree, root: Elem) returns (visited: seq<Elem>)
    requires Valid(t)
    ensures visited == Frontier(t, root)
  {
    visited := VisitSiblings(t, root, []);
    var parent := ParentOf(t, root);
    ghost var goal := Frontier(t, root);
    assert visited == Siblings(t, root);
    while parent.Some? && parent.value != t.body
      invariant visited + Levels(t, AncestorsFrom(t, parent)) == goal
      decreases if parent.Some? then Depth(t, parent.value) + 1 else 0
    {
      var p := parent.value;
      ghost var before := visited;
      visited := VisitSiblings(t, p, visited);
      LevelsStep(t, p, before, goal);
      ParentIsShallower(t, p);
      parent := ParentOf(t, p);
    }
    assert AncestorsFrom(t, parent) == [];
  }

  /** One step of the upward walk keeps the loop invariant of `Traverse`. */
  lemma LevelsStep(t: Tree, p: Elem, before: seq<Elem>, goal: seq<Elem>)
    requires Valid(t) && p != t.body
    requires before + Levels(t, AncestorsFrom(t, Some(p))) == goal
    ensures (before + Siblings(t, p)) + Levels(t, AncestorsFrom(t, ParentOf(t, p))) == goal
  {
    var ps := AncestorsFrom(t, Some(p));
    var rest := Levels(t, AncestorsFrom(t, ParentOf(t, p)));
    assert ps == [p] + AncestorsFrom(t, ParentOf(t, p));
    assert ps[1..] == AncestorsFrom(t, ParentOf(t, p));
    assert Levels(t, ps) == Siblings(t, p) + rest;
  }

  /** One `for (const sibling of getSiblings(e))` loop: walks the parent's
      children, skips `e`, and hands every other child to the callback. */
  method VisitSiblings(t: Tree, e: Elem, visited: seq<Elem>) returns (r: seq<Elem>)
    requires Valid(t)
    ensures r == visited + Siblings(t, e)
  {
    r := visited;
    if e !in t.parent {
      return;
    }
    var kids := t.children[t.parent[e]];
    var i := 0;
    while i < |kids|
      invariant i <= |kids|
      invariant r == visited + Without(kids[..i], e)
    {
      assert kids[..i + 1] == kids[..i] + [kids[i]];
      WithoutAppend(kids[..i], [kids[i]], e);
      if kids[i] != e {
        r := r + [kids[i]];
      }
      i := i + 1;
    }
    assert kids[..i] == kids;
  }
}
