/**
 * The rule LandscapePreparer uses to decide which components start opened, stated on
 * the shape of a component tree: each node carries its `opened` flag and its children.
 *
 * A component reached with "should be opened" is opened; its children are reached with
 * "should be opened" only if it has exactly one child. A component reached without it is
 * closed, and so is everything below it.
 */
module OpeningRule {

  /** A component subtree: the `opened` flag of its root and the subtrees of its children. */
  datatype Tree = Tree(isOpened: bool, children: seq<Tree>)

  /** The flags `setComponentAttributes(component, index, shouldBeOpened)` leaves on a subtree. */
  function Opened(t: Tree, shouldBeOpened: bool): (r: Tree)
    ensures r.isOpened == shouldBeOpened
    ensures |r.children| == |t.children|
  {
    var next := shouldBeOpened && |t.children| == 1;
    Tree(shouldBeOpened, seq(|t.children|, k requires 0 <= k < |t.children| => Opened(t.children[k], next)))
  }

  /** The same tree structure, whatever the flags. */
  predicate SameSkeleton(a: Tree, b: Tree)
  {
    && |a.children| == |b.children|
    && forall k :: 0 <= k < |a.children| ==> SameSkeleton(a.children[k], b.children[k])
  }

  /** Every component of the subtree is closed. */
  predicate AllClosed(t: Tree)
  {
    !t.isOpened && forall k :: 0 <= k < |t.children| ==> AllClosed(t.children[k])
  }

  /** A path of child indices from the root that stays inside the tree. */
  predicate ValidPath(t: Tree, p: seq<nat>)
  {
    p == [] || (p[0] < |t.children| && ValidPath(t.children[p[0]], p[1..]))
  }

  /** The subtree at the end of a path. */
  function At(t: Tree, p: seq<nat>): Tree
    requires ValidPath(t, p)
  {
    if p == [] then t else At(t.children[p[0]], p[1..])
  }

  /** Every component strictly above the end of the path has exactly one child. */
  predicate OnlyChildrenAbove(t: Tree, p: seq<nat>)
    requires ValidPath(t, p)
  {
    p == [] || (|t.children| == 1 && OnlyChildrenAbove(t.children[p[0]], p[1..]))
  }

  /** Only the structure is read: the flags are rewritten. */
  lemma {:induction false} OpenedKeepsSkeleton(t: Tree, shouldBeOpened: bool)
    ensures SameSkeleton(Opened(t, shouldBeOpened), t)
  {
    var r := Opened(t, shouldBeOpened);
    var next := shouldBeOpened && |t.children| == 1;
    forall k | 0 <= k < |t.children|
      ensures SameSkeleton(r.children[k], t.children[k])
    {
      OpenedKeepsSkeleton(t.children[k], next);
    }
  }

  /** The outcome depends on the structure alone, not on the flags found in the tree. */
  lemma {:induction false} OpenedIgnoresFlags(a: Tree, b: Tree, shouldBeOpened: bool)
    requires SameSkeleton(a, b)
    ensures Opened(a, shouldBeOpened) == Opened(b, shouldBeOpened)
  {
    var next := shouldBeOpened && |a.children| == 1;
    forall k | 0 <= k < |a.children|
      ensures Opened(a.children[k], next) == Opened(b.children[k], next)
    {
      OpenedIgnoresFlags(a.children[k], b.children[k], next);
    }
  }

  /** Running the rule a second time changes nothing. */
  lemma OpenedIdempotent(t: Tree, shouldBeOpened: bool)
    ensures Opened(Opened(t, shouldBeOpened), shouldBeOpened) == Opened(t, shouldBeOpened)
  {
    OpenedKeepsSkeleton(t, shouldBeOpened);
    OpenedIgnoresFlags(Opened(t, shouldBeOpened), t, shouldBeOpened);
  }

  /** Reached without "should be opened", a component and its whole subtree end up closed. */
  lemma {:induction false} ClosedBelow(t: Tree)
    ensures AllClosed(Opened(t, false))
  {
    var r := Opened(t, false);
    forall k | 0 <= k < |t.children|
      ensures AllClosed(r.children[k])
    {
      ClosedBelow(t.children[k]);
    }
  }

  /**
   * The opening rule along a path: the component at the end of the path ends up opened
   * exactly when the subtree was reached with "should be opened" and every component
   * strictly above it on the path has exactly one child.
   */
  lemma {:induction false} OpenedAlongPath(t: Tree, shouldBeOpened: bool, p: seq<nat>)
    requires ValidPath(t, p)
    ensures ValidPath(Opened(t, shouldBeOpened), p)
    ensures At(Opened(t, shouldBeOpened), p).isOpened == (shouldBeOpened && OnlyChildrenAbove(t, p))
  {
    if p != [] {
      var next := shouldBeOpened && |t.children| == 1;
      OpenedAlongPath(t.children[p[0]], next, p[1..]);
    }
  }
}
