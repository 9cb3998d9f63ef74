# focus-trap, modelled in Dafny

A model of the focus-trapping library in `src/main.ts`. Given a root element
(say a modal dialog), `trap` sets the `inert` attribute on the root's siblings
and on the siblings of each ancestor reached by following parents upward without
stepping onto `document.body`. The walk stops at `body` or at a missing parent, so
for a detached subtree it reaches the subtree's top. It does not walk the whole
document. It leaves the root, its ancestors, its descendants and the
descendants of the visited elements untouched. The browser is what makes the
descendants of an inert element unfocusable. `release` visits the same elements
and puts back each one's original `inert` value, which `trap` recorded in a weak
map.

The model is functional:

- `wrappers.dfy` (`Wrappers`): `Option`, standing for an element or `null` and for a string or `null`.
- `tree.dfy` (`DomTree`): the document as an immutable tree. It has a parent map
  (`parentElement`), ordered child lists (`parent.children`), a depth map, and an
  explicit `body`. The depth map witnesses acyclicity: every parent is shallower
  than its child. `Valid` says the links agree, no child list repeats an element,
  and depth strictly decreases going up. The file also defines the reference
  relations `IsAncestor`, `Guarded` (an ancestor reached without stepping onto
  `body`) and `IsSibling`.
- `traversal.dfy` (`Traversal`):
  - `getSiblings` is modelled as `Siblings`.
  - `traverseParents` is modelled as `Ancestors`.
  - `traverse`'s visit order is `Frontier`.
  - `Traverse` and `VisitSiblings` are methods that keep the source's loops
    (the `continue` over the child list, and the upward `parent` walk). Each is
    proved equal to the functional definition.
- `inert.dfy` (`Inert`): `setInert`, `restoreInert`, `trap` and `release` as
  functions over a `Store`. A `Store` holds the attribute state (`map<Elem, string>`,
  where a missing key means the attribute is absent) and the memo
  (`map<Elem, Option<string>>`, where a missing key is the weak map's `undefined`
  and `None` is a recorded `null`).
- `handler.dfy` (`FocusTrap`): `init` as a `Handler` record holding the root.
- `scenarios.dfy` (`Scenarios`): three small concrete documents on which the results are instantiated.

Three behaviours of the code that a reader might expect to be otherwise, all
modelled as written:

- Root equal to `body`: one might expect nothing to be visited. The code still calls
  `getSiblings(root)`, so `body`'s own siblings (such as `head`) are visited.
  `traverseParents(body)` also yields `html`, whose sibling list is empty.
  `Scenarios.RootIsBodyScenario` shows this.
- A second `release`: one might expect every element to end up absent. The code
  never clears the memo, so a second `release` writes back the same recorded
  values and gives the same state as the first (`Inert.ReleaseIdempotent`).
- Memo entries: they are not removed on restore. They stay until the next
  `setInert` on that element overwrites them.

## Model

| member | source | states |
|---|---|---|
| Traversal.Siblings | src/main.ts:42-55 | yields exactly the elements that share `e`'s parent, minus `e`; no element twice; nothing when `e` has no parent |
| Traversal.SiblingsInDocumentOrder | src/main.ts:48-54 | the siblings are the parent's child list in document order with `e` cut out of its own position |
| Traversal.VisitSiblings | src/main.ts:48-54 | the child loop that skips `e` with `continue` hands the callback exactly the sibling sequence |
| Traversal.Ancestors | src/main.ts:30-37 | the walk never yields `body`; it is non-empty exactly when there is a parent and it is not `body`, and then it starts at the immediate parent |
| Traversal.AncestorsChain | src/main.ts:31-36 | each yielded element is the parent of the previous one; the walk stops exactly where the next parent is null or `body` |
| Traversal.AncestorsExact | src/main.ts:30-37 | an element is yielded if and only if it is reached by following parents upward without stepping onto `body` |
| Traversal.AncestorsBelowBody | src/main.ts:33 | every yielded element is a proper ancestor; when `body` is an ancestor, neither `body` nor anything above it is yielded |
| Traversal.Frontier | src/main.ts:60-73 | the visit order is the root's siblings followed by the siblings of each ancestor from the upward walk; the root's own siblings come first; a root without a parent visits nothing |
| Traversal.FrontierExact | src/main.ts:60-73 | `traverse` visits an element if and only if it is a sibling of the root or a sibling of an ancestor reached by following parents upward without stepping onto `body` |
| Traversal.FrontierDistinct | src/main.ts:60-73 | `traverse` calls the callback at most once per element |
| Traversal.FrontierExcludesPath | src/main.ts:60-73 | `traverse` never visits the root, any ancestor of the root, or any descendant of the root |
| Traversal.FrontierInsideBody | src/main.ts:60-73 | when `body` is an ancestor of the root, every visited element lies inside `body` |
| Traversal.Traverse | src/main.ts:60-73 | the two-loop traversal (root's siblings, then siblings of each ancestor) produces exactly the frontier visit sequence |
| Inert.SetInert | src/main.ts:9-12 | afterwards the attribute is present and empty; the memo holds the prior value (`null` when absent); no other element's attribute or memo entry changes |
| Inert.RestoreInert | src/main.ts:17-25 | memo missing or `null` removes the attribute; a recorded string, `""` included, is written back exactly; the memo and other elements are unchanged |
| Inert.SetRestoreRoundTrip | src/main.ts:9-25 | `setInert` then `restoreInert` on one element gives back the original attribute state |
| Inert.SetAll | src/main.ts:78-80 | calling `setInert` on each element of a visit sequence makes each one inert and leaves the rest untouched; with no repeats, each memo entry holds the pre-call value |
| Inert.RestoreAll | src/main.ts:85-87 | calling `restoreInert` on each element of a visit sequence gives each one its recorded value; the rest and the memo are untouched |
| Inert.Trap | src/main.ts:78-80 | every frontier element becomes inert and remembers its original value; every other element's attribute and memo entry is unchanged |
| Inert.Release | src/main.ts:85-87 | every frontier element gets its recorded value back (removed when none or `null`); the memo and all other elements are unchanged |
| Inert.TrapReleaseRoundTrip | src/main.ts:78-87 | from any attribute state, `trap` then `release` on the same root restores every element's attribute exactly |
| Inert.SetRestoreAllRoundTrip | src/main.ts:9-25 | the round trip over a visit sequence holds whenever no element is visited twice |
| Inert.RoundTripNeedsVisitOnce | src/main.ts:10-11 | for every store and element, visiting the element twice leaves its attribute present and empty after restoring, because the second `setInert` records `""`; this loses the original value whenever it was not `""` |
| Inert.ReleaseIdempotent | src/main.ts:85-87 | a second `release` leaves the whole store (attributes and memo) as the first one did |
| Inert.DoubleTrapLosesOriginal | src/main.ts:78-80 | `trap; trap; release` leaves every frontier element present and empty, which loses the original value whenever it was not `""` |
| Inert.TrapSparesPath | src/main.ts:78-80 | `trap` leaves the attribute and memo entry of the root, its ancestors and its descendants unchanged |
| FocusTrap.HandlerRoundTrip | src/main.ts:97-102 | for `Init(root)`, the record modelling `init`, the bound `trap` followed by the bound `release` restores the attribute state |
| Scenarios.FlatSiblingsScenario | src/main.ts:60-87 | in `body[A, B, root, C]`, `trap` makes exactly A, B, C inert and `release` removes the attribute again |
| Scenarios.NestedAncestorScenario | src/main.ts:60-87 | in `body[wrapper[X, root], Y]`, X and Y are visited and the wrapper and root are not; Y's prior value `"some-value"` comes back on `release` |
| Scenarios.RootIsBodyScenario | src/main.ts:64-72 | with root equal to `body` in `html[head, body[...]]`, the upward walk yields `html` and the traversal still visits `head` |

## Left out

- DOM API details are not modelled. The model does not represent the liveness of
  `HTMLCollection`, the `as HTMLElement` cast, or general attribute semantics. The
  tree is an abstract parent/children/depth value, and only the `inert` attribute
  is represented.
- The effect of `inert` on focus is left out. The model covers only the attribute
  state. It does not represent how browsers make an inert element and its
  descendants unfocusable, so it makes no claim about which elements can take focus.
- `document.body` is the explicit `body` field of the tree, not a global.
- The weak map's garbage-collection behaviour is left out. The memo is an ordinary
  map threaded through the operations.
- Generators are not modelled as lazy iterators. `traverseParents` and
  `getSiblings` are finite sequences that are consumed eagerly. This changes
  nothing, because the tree is fixed while they run.
- DOM mutation between `trap` and `release`, or during a traversal, is not
  modelled. Both calls see the same tree value.
- Callbacks are not modelled as arbitrary code. `trap` and `release` pass only
  `setInert` and `restoreInert`. `Traverse` records the callback's arguments as a
  sequence, and the store-level folds apply the two visitors to that sequence.
- `init` is plain currying. `FocusTrap.Init` is a record of the root, and its
  closures are the `Handler` member functions.
