/** Small concrete documents on which the general results are instantiated. */
module Scenarios {
  import opened Wrappers
  import opened DomTree
  import opened Traversal
  import opened Inert

  /** `body` (0) holding A (1), B (2), root (3) and C (4). */
  function FlatDoc(): Tree {
    Tree(
      map[1 := 0, 2 := 0, 3 := 0, 4 := 0],
      map[0 := [1, 2, 3, 4], 1 := [], 2 := [], 3 := [], 4 := []],
      map[0 := 0, 1 := 1, 2 := 1, 3 := 1, 4 := 1],
      0)
  }

  /** `body` (0) holding a wrapper (10) and Y (20); the wrapper holds X (11)
      and root (12). */
  function NestedDoc(): Tree {
    Tree(
      map[10 := 0, 20 := 0, 11 := 10, 12 := 10],
      map[0 := [10, 20], 10 := [11, 12], 20 := [], 11 := [], 12 := []],
      map[0 := 0, 10 := 1, 20 := 1, 11 := 2, 12 := 2],
      0)
  }

  /** `html` (5) holding `head` (6) and `body` (0); `body` holds one child (1). */
  function PageDoc(): Tree {
    Tree(
      map[6 := 5, 0 := 5, 1 := 0],
      map[5 := [6, 0], 6 := [], 0 := [1], 1 := []],
      map[5 := 0, 6 := 1, 0 := 1, 1 := 2],
      0)
  }

  lemma FlatDocValid()
    ensures Valid(FlatDoc())
  {
    var t := FlatDoc();
    forall e | e in t.parent
      ensures t.parent[e] in t.children && e in t.children[t.parent[e]]
      ensures e in t.depth && t.parent[e] in t.depth && t.depth[t.parent[e]] < t.depth[e]
    {
      assert e == 1 || e == 2 || e == 3 || e == 4;
    }
    forall p, i | p in t.children && 0 <= i < |t.children[p]|
      ensures t.children[p][i] in t.parent && t.parent[t.children[p][i]] == p
    {
      assert p == 0 || p == 1 || p == 2 || p == 3 || p == 4;
    }
    forall p | p in t.children
      ensures Distinct(t.children[p])
    {
      assert p == 0 || p == 1 || p == 2 || p == 3 || p == 4;
    }
  }

  lemma NestedDocValid()
    ensures Valid(NestedDoc())
  {
    var t := NestedDoc();
    forall e | e in t.parent
      ensures t.parent[e] in t.children && e in t.children[t.parent[e]]
      ensures e in t.depth && t.parent[e] in t.depth && t.depth[t.parent[e]] < t.depth[e]
    {
      assert e == 10 || e == 20 || e == 11 || e == 12;
    }
    forall p, i | p in t.children && 0 <= i < |t.children[p]|
      ensures t.children[p][i] in t.parent && t.parent[t.children[p][i]] == p
    {
      assert p == 0 || p == 10 || p == 20 || p == 11 || p == 12;
    }
    forall p | p in t.children
      ensures Distinct(t.children[p])
    {
      assert p == 0 || p == 10 || p == 20 || p == 11 || p == 12;
    }
  }

  lemma PageDocValid()
    ensures Valid(PageDoc())
  {
    var t := PageDoc();
    forall e | e in t.parent
      ensures t.parent[e] in t.children && e in t.children[t.parent[e]]
      ensures e in t.depth && t.parent[e] in t.depth && t.depth[t.parent[e]] < t.depth[e]
    {
      assert e == 6 || e == 0 || e == 1;
    }
    forall p, i | p in t.children && 0 <= i < |t.children[p]|
      ensures t.children[p][i] in t.parent && t.parent[t.children[p][i]] == p
    {
      assert p == 5 || p == 6 || p == 0 || p == 1;
    }
    forall p | p in t.children
      ensures Distinct(t.children[p])
    {
      assert p == 5 || p == 6 || p == 0 || p == 1;
    }
  }

  lemma FlatWithout()
    ensures Without([1, 2, 3, 4], 3) == [1, 2, 4]
  {
    var s: seq<Elem> := [1, 2, 3, 4];
    assert s[1..][1..][1..][1..] == [];
    assert Without(s[1..][1..][1..], 3) == [4];
    assert Without(s[1..][1..], 3) == [4];
    assert Without(s[1..], 3) == [2, 4];
  }

  lemma FlatSiblings()
    ensures Valid(FlatDoc())
    ensures Siblings(FlatDoc(), 3) == [1, 2, 4]
  {
    FlatDocValid();
    FlatWithout();
  }

  lemma FlatFrontier()
    ensures Valid(FlatDoc())
    ensures Frontier(FlatDoc(), 3) == [1, 2, 4]
  {
    FlatSiblings();
    assert Ancestors(FlatDoc(), 3) == [];
  }

  /** Flat siblings: trapping root makes A, B and C inert and leaves root
      alone; releasing removes the attribute again. */
  lemma FlatSiblingsScenario()
    ensures Valid(FlatDoc())
    ensures Trap(FlatDoc(), 3, Store(map[], map[])).attrs == map[1 := "", 2 := "", 4 := ""]
    ensures Release(FlatDoc(), 3, Trap(FlatDoc(), 3, Store(map[], map[]))).attrs == map[]
  {
    FlatFrontier();
    var t := FlatDoc();
    var s := Store(map[], map[]);
    var r := Trap(t, 3, s);
    var expected := Store(map[1 := "", 2 := "", 4 := ""], map[]);
    forall x
      ensures GetInert(r, x) == GetInert(expected, x)
    {
      assert x in [1, 2, 4] <==> x == 1 || x == 2 || x == 4;
    }
    AttrsExtensional(r, expected);
    TrapReleaseRoundTrip(t, 3, s);
  }

  lemma NestedSiblings()
    ensures Valid(NestedDoc())
    ensures Siblings(NestedDoc(), 12) == [11]
    ensures Siblings(NestedDoc(), 10) == [20]
  {
    NestedDocValid();
    var a: seq<Elem> := [11, 12];
    var b: seq<Elem> := [10, 20];
    assert a[1..][1..] == [] && b[1..][1..] == [];
    assert Without(a, 12) == [11];
    assert Without(b, 10) == [20];
  }

  lemma NestedFrontier()
    ensures Valid(NestedDoc())
    ensures Frontier(NestedDoc(), 12) == [11, 20]
  {
    NestedSiblings();
    var t := NestedDoc();
    assert Ancestors(t, 12) == [10];
    assert Levels(t, [10]) == [20];
  }

  /** Nested ancestor: X (root's sibling) and Y (the wrapper's sibling) are
      visited; the wrapper and root are not. A value Y held before trapping
      comes back on release. */
  lemma NestedAncestorScenario()
    ensures Valid(NestedDoc())
    ensures Frontier(NestedDoc(), 12) == [11, 20]
    ensures var s := Store(map[20 := "some-value"], map[]);
      && GetInert(Trap(NestedDoc(), 12, s), 20) == Some("")
      && GetInert(Release(NestedDoc(), 12, Trap(NestedDoc(), 12, s)), 20) == Some("some-value")
      && GetInert(Trap(NestedDoc(), 12, s), 10) == None
      && GetInert(Trap(NestedDoc(), 12, s), 12) == None
  {
    NestedFrontier();
  }

  lemma PageSiblings()
    ensures Valid(PageDoc())
    ensures Siblings(PageDoc(), 0) == [6]
    ensures Siblings(PageDoc(), 5) == []
  {
    PageDocValid();
    var kids: seq<Elem> := [6, 0];
    assert kids[1..][1..] == [];
    assert Without(kids, 0) == [6];
  }

  /** With root equal to `body`, the traversal is not empty: it still
      visits `body`'s own siblings (here `head`), and the upward walk yields
      `html`. */
  lemma RootIsBodyScenario()
    ensures Valid(PageDoc())
    ensures Ancestors(PageDoc(), 0) == [5]
    ensures Frontier(PageDoc(), 0) == [6]
  {
    PageSiblings();
    var t := PageDoc();
    assert Ancestors(t, 0) == [5];
    assert Levels(t, [5]) == [];
  }
}
