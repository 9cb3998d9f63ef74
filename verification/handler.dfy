/** The public entry point `init`: both operations bound to one root. */
module FocusTrap {
  import opened DomTree
  import Inert

  /** The pair of closures `init(root)` returns, as a record of the root. */
  datatype Handler = Handler(root: Elem) {

    function Trap(t: Tree, s: Inert.Store): (r: Inert.Store)
      requires Valid(t)
    {
      Inert.Trap(t, root, s)
    }

    function Release(t: Tree, s: Inert.Store): (r: Inert.Store)
      requires Valid(t)
    {
      Inert.Release(t, root, s)
    }
  }

  function Init(root: Elem): (h: Handler) {
    Handler(root)
  }

  /** The bound `trap` followed by the bound `release` restores the
      attribute state. */
  lemma HandlerRoundTrip(root: Elem, t: Tree, s: Inert.Store)
    requires Valid(t)
    ensures Init(root).Release(t, Init(root).Trap(t, s)).attrs == s.attrs
  {
    Inert.TrapReleaseRoundTrip(t, root, s);
  }
}
