/** An abstract, immutable document tree.

    Elements are opaque identities. `parent` plays the part of
    `parentElement` (a missing key means `null`), `children` gives each
    element's ordered child list (`parent.children`), and `depth` is a
    witness of acyclicity: every parent is strictly shallower than its child.
    The distinguished `body` element is an explicit part of the tree value
    instead of the global `document.body`.
 */
module DomTree {
  import opened Wrappers

  type Elem = nat

  datatype Tree = Tree(
    parent: map<Elem, Elem>,
    children: map<Elem, seq<Elem>>,
    depth: map<Elem, nat>,
    body: Elem)

  /** No element occurs twice in `s`. */
  predicate Distinct(s: seq<Elem>) {
    forall i, j :: 0 <= i < j < |s| ==> s[i] != s[j]
  }

  /** The shape every live DOM has: parent and child links agree, child
      lists repeat nothing, and walking upward strictly decreases depth. */
  ghost predicate Valid(t: Tree) {
    && (forall e :: e in t.parent ==> t.parent[e] in t.children && e in t.children[t.parent[e]])
    && (forall p, i :: p in t.children && 0 <= i < |t.children[p]| ==>
          t.children[p][i] in t.parent && t.parent[t.children[p][i]] == p)
    && (forall p :: p in t.children ==> Distinct(t.children[p]))
    && (forall e :: e in t.parent ==> e in t.depth && t.parent[e] in t.depth)
    && (forall e :: e in t.parent ==> t.depth[t.parent[e]] < t.depth[e])
  }

  /** `element.parentElement`. */
  function ParentOf(t: Tree, e: Elem): (r: Option<Elem>) {
    if e in t.parent then Some(t.parent[e]) else None
  }

  function Depth(t: Tree, e: Elem): (r: nat) {
    if e in t.depth then t.depth[e] else 0
  }

  lemma ParentIsShallower(t: Tree, e: Elem)
    requires Valid(t)
    ensures e in t.parent ==> Depth(t, t.parent[e]) < Depth(t, e)
  {
  }

  /** `a` is reached from `e` by following `parentElement` one or more times. */
  ghost predicate IsAncestor(t: Tree, a: Elem, e: Elem)
    requires Valid(t)
    decreases Depth(t, e)
  {
    e in t.parent && (t.parent[e] == a || IsAncestor(t, a, t.parent[e]))
  }

  /** `a` is reached from `e` by following `parentElement` one or more times
      without ever stepping onto `body`. */
  ghost predicate Guarded(t: Tree, a: Elem, e: Elem)
    requires Valid(t)
    decreases Depth(t, e)
  {
    e in t.parent && t.parent[e] != t.body && (t.parent[e] == a || Guarded(t, a, t.parent[e]))
  }

  /** `v` and `x` are distinct children of the same parent. */
  predicate IsSibling(t: Tree, v: Elem, x: Elem) {
    v in t.parent && x in t.parent && t.parent[v] == t.parent[x] && v != x
  }

  lemma {:induction false} AncestorIsShallower(t: Tree, a: Elem, e: Elem)
    requires Valid(t) && IsAncestor(t, a, e)
    ensures Depth(t, a) < Depth(t, e)
    decreases Depth(t, e)
  {
    ParentIsShallower(t, e);
    if t.parent[e] != a {
      AncestorIsShallower(t, a, t.parent[e]);
    }
  }

  lemma {:induction false} AncestorTransitive(t: Tree, a: Elem, b: Elem, c: Elem)
    requires Valid(t) && IsAncestor(t, a, b) && IsAncestor(t, b, c)
    ensures IsAncestor(t, a, c)
    decreases Depth(t, c)
  {
    ParentIsShallower(t, c);
    if t.parent[c] != b {
      AncestorTransitive(t, a, b, t.parent[c]);
    }
  }

  lemma {:induction false} GuardedIsAncestor(t: Tree, a: Elem, e: Elem)
    requires Valid(t) && Guarded(t, a, e)
    ensures IsAncestor(t, a, e)
    decreases Depth(t, e)
  {
    ParentIsShallower(t, e);
    if t.parent[e] != a {
      GuardedIsAncestor(t, a, t.parent[e]);
    }
  }

  /** Ancestors form a single chain: an element reached below `body` lies
      under `body` whenever `body` is an ancestor at all. */
  lemma {:induction false} GuardedBelowBody(t: Tree, a: Elem, e: Elem)
    requires Valid(t) && Guarded(t, a, e) && IsAncestor(t, t.body, e)
    ensures IsAncestor(t, t.body, a)
    decreases Depth(t, e)
  {
    ParentIsShallower(t, e);
    if t.parent[e] != a {
      GuardedBelowBody(t, a, t.parent[e]);
    }
  }

  /** A sibling of `x` is neither `x`, nor an ancestor, nor a descendant of `x`. */
  lemma SiblingUnrelated(t: Tree, v: Elem, x: Elem)
    requires Valid(t) && IsSibling(t, v, x)
    ensures v != x && !IsAncestor(t, v, x) && !IsAncestor(t, x, v)
  {
    var p := t.parent[x];
    ParentIsShallower(t, x);
    ParentIsShallower(t, v);
    if IsAncestor(t, v, x) {
      if p != v {
        AncestorIsShallower(t, v, p);
      }
      assert false;
    }
    if IsAncestor(t, x, v) {
      if p != x {
        AncestorIsShallower(t, x, p);
      }
      assert false;
    }
  }
}
