/** The save/restore protocol for the `inert` attribute, and `trap` /
    `release` built on the frontier traversal.

    `attrs` holds the elements that carry `inert` and their values (a
    missing key means the attribute is absent). `memo` is the weak map of
    original values: a missing key reads as `undefined`, `None` is a
    recorded `null`. Both live in one `Store` that every operation threads
    through.
 */
module Inert {
  import opened Wrappers
  import opened DomTree
  import opened Traversal

  datatype Store = Store(attrs: map<Elem, string>, memo: map<Elem, Option<string>>)

  /** `element.getAttribute("inert")`. */
  function GetInert(s: Store, e: Elem): (r: Option<string>) {
    if e in s.attrs then Some(s.attrs[e]) else None
  }

  /** The value restoring reads from the memo: `undefined` and `null` both
      compare `== null`, so both come out as `None`. */
  function Saved(s: Store, e: Elem): (r: Option<string>) {
    if e in s.memo then s.memo[e] else None
  }

  /** `x`'s memo entry is the same in both stores, present or absent. */
  predicate SameMemo(a: Store, b: Store, x: Elem) {
    (x in a.memo <==> x in b.memo) && (x in a.memo ==> a.memo[x] == b.memo[x])
  }

  /** `setInert`: record the prior value, then make the attribute present
      and empty. */
  function SetInert(s: Store, e: Elem): (r: Store)
    ensures GetInert(r, e) == Some("")
    ensures e in r.memo && r.memo[e] == GetInert(s, e)
    ensures forall x :: x != e ==> GetInert(r, x) == GetInert(s, x) && SameMemo(r, s, x)
  {
    Store(s.attrs[e := ""], s.memo[e := GetInert(s, e)])
  }

  /** `restoreInert`: put back the recorded value, or remove the attribute
      when nothing (or `null`) was recorded. The memo is never touched. */
  function RestoreInert(s: Store, e: Elem): (r: Store)
    ensures r.memo == s.memo
    ensures e !in s.memo ==> GetInert(r, e) == None
    ensures e in s.memo && s.memo[e].None? ==> GetInert(r, e) == None
    ensures e in s.memo && s.memo[e].Some? ==> GetInert(r, e) == Some(s.memo[e].value)
    ensures forall x :: x != e ==> GetInert(r, x) == GetInert(s, x)
  {
    match Saved(s, e)
    case None => Store(s.attrs - {e}, s.memo)
    case Some(v) => Store(s.attrs[e := v], s.memo)
  }

  /** `setInert` on one element, then `restoreInert` on it, gives back the
      original attribute. */
  lemma SetRestoreRoundTrip(s: Store, e: Elem)
    ensures RestoreInert(SetInert(s, e), e).attrs == s.attrs
  {
    var r := RestoreInert(SetInert(s, e), e);
    assert forall x :: GetInert(r, x) == GetInert(s, x);
    AttrsExtensional(r, s);
  }

  lemma AttrsExtensional(a: Store, b: Store)
    requires forall x :: GetInert(a, x) == GetInert(b, x)
    ensures a.attrs == b.attrs
  {
    assert forall x :: x in a.attrs <==> GetInert(a, x).Some?;
    assert forall x :: x in b.attrs <==> GetInert(b, x).Some?;
    assert a.attrs.Keys == b.attrs.Keys;
  }

  lemma StoreExtensional(a: Store, b: Store)
    requires forall x :: GetInert(a, x) == GetInert(b, x)
    requires forall x :: SameMemo(a, b, x)
    ensures a == b
  {
    AttrsExtensional(a, b);
    forall x | x in a.memo || x in b.memo
      ensures x in a.memo && x in b.memo && a.memo[x] == b.memo[x]
    {
      assert SameMemo(a, b, x);
    }
    assert a.memo == b.memo;
  }

  /** The callback loop with `setInert`: every visited element ends up
      inert and remembered, everything else is untouched. When no element
      is visited twice, each memo entry holds the value from before the loop. */
  function SetAll(s: Store, vs: seq<Elem>): (r: Store)
    ensures forall x :: x in vs ==> GetInert(r, x) == Some("") && x in r.memo
    ensures forall x :: x !in vs ==> GetInert(r, x) == GetInert(s, x) && SameMemo(r, s, x)
    ensures Distinct(vs) ==> forall x :: x in vs ==> r.memo[x] == GetInert(s, x)
    decreases |vs|
  {
    if vs == [] then s
    else
      assert Distinct(vs) ==> Distinct(vs[1..]) && vs[0] !in vs[1..];
      assert forall x :: x in vs <==> x == vs[0] || x in vs[1..];
      SetAll(SetInert(s, vs[0]), vs[1..])
  }

  /** The callback loop with `restoreInert`: every visited element gets
      its recorded value back, everything else and the memo are untouched. */
  function RestoreAll(s: Store, vs: seq<Elem>): (r: Store)
    ensures r.memo == s.memo
    ensures forall x :: x in vs ==> GetInert(r, x) == Saved(s, x)
    ensures forall x :: x !in vs ==> GetInert(r, x) == GetInert(s, x)
    decreases |vs|
  {
    if vs == [] then s
    else
      assert forall x :: x in vs <==> x == vs[0] || x in vs[1..];
      RestoreAll(RestoreInert(s, vs[0]), vs[1..])
  }

  /** `trap(root)`: every frontier element is inert and remembers its
      original value; no other element's attribute or memo entry changes. */
  function Trap(t: Tree, root: Elem, s: Store): (r: Store)
    requires Valid(t)
    ensures forall x :: x in Frontier(t, root) ==>
      GetInert(r, x) == Some("") && x in r.memo && r.memo[x] == GetInert(s, x)
    ensures forall x :: x !in Frontier(t, root) ==> GetInert(r, x) == GetInert(s, x) && SameMemo(r, s, x)
  {
    FrontierDistinct(t, root);
    SetAll(s, Frontier(t, root))
  }

  /** `release(root)`: every frontier element gets its remembered value
      back (absent when none or `null` was remembered); nothing else and no
      memo entry changes. */
  function Release(t: Tree, root: Elem, s: Store): (r: Store)
    requires Valid(t)
    ensures r.memo == s.memo
    ensures forall x :: x in Frontier(t, root) ==> GetInert(r, x) == Saved(s, x)
    ensures forall x :: x !in Frontier(t, root) ==> GetInert(r, x) == GetInert(s, x)
  {
    RestoreAll(s, Frontier(t, root))
  }

  /** From any attribute state, `trap` then `release` on the same root
      restores every element's `inert` attribute exactly. */
  lemma TrapReleaseRoundTrip(t: Tree, root: Elem, s: Store)
    requires Valid(t)
    ensures Release(t, root, Trap(t, root, s)).attrs == s.attrs
  {
    var r := Release(t, root, Trap(t, root, s));
    forall x
      ensures GetInert(r, x) == GetInert(s, x)
    {
    }
    AttrsExtensional(r, s);
  }

  /** The round trip over a visit sequence holds whenever no element is
      visited twice. */
  lemma SetRestoreAllRoundTrip(s: Store, vs: seq<Elem>)
    requires Distinct(vs)
    ensures RestoreAll(SetAll(s, vs), vs).attrs == s.attrs
  {
    var r := RestoreAll(SetAll(s, vs), vs);
    forall x
      ensures GetInert(r, x) == GetInert(s, x)
    {
    }
    AttrsExtensional(r, s);
  }

  /** Visiting an element twice, from any store, leaves its attribute present
      and empty after restoring: the second `setInert` records the `""` written
      by the first. This loses the original value whenever it was not `""`. */
  lemma RoundTripNeedsVisitOnce(s: Store, e: Elem)
    ensures GetInert(RestoreAll(SetAll(s, [e, e]), [e, e]), e) == Some("")
  {
    var once := SetInert(s, e);
    var twice := SetInert(once, e);
    assert SetAll(s, [e, e]) == SetAll(twice, []);
  }

  /** `release` is idempotent: a second `release` changes nothing, since
      restoring never modifies the memo. */
  lemma ReleaseIdempotent(t: Tree, root: Elem, s: Store)
    requires Valid(t)
    ensures Release(t, root, Release(t, root, s)) == Release(t, root, s)
  {
    var once := Release(t, root, s);
    var twice := Release(t, root, once);
    forall x
      ensures GetInert(twice, x) == GetInert(once, x)
    {
    }
    StoreExtensional(twice, once);
  }

  /** Trapping twice before releasing leaves every frontier element present
      and empty, which loses the original value whenever it was not `""`. */
  lemma DoubleTrapLosesOriginal(t: Tree, root: Elem, s: Store)
    requires Valid(t)
    ensures var r := Release(t, root, Trap(t, root, Trap(t, root, s)));
      forall x :: x in Frontier(t, root) ==> GetInert(r, x) == Some("")
  {
  }

  /** `trap` leaves the root, its ancestors and its descendants exactly as
      they were: attribute and memo entry. */
  lemma TrapSparesPath(t: Tree, root: Elem, s: Store, x: Elem)
    requires Valid(t)
    requires x == root || IsAncestor(t, x, root) || IsAncestor(t, root, x)
    ensures GetInert(Trap(t, root, s), x) == GetInert(s, x)
    ensures SameMemo(Trap(t, root, s), s, x)
  {
    FrontierExcludesPath(t, root);
  }
}
