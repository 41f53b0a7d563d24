/** RedBlackTree::CheckInvariants (RedBlackTree.h:562-632), the debug check the source runs
    over the whole tree, restated as recursive predicates over the same walk: it visits
    every node with the number of black links on the way down to it, and fails on a red
    node with a red child (except at the root), on a lone red right child, or on two
    childless nodes at different black depths. */
module Invariants {
  import opened RedBlackNode

  /** No red node of the subtree has a red child. */
  predicate NoRedPair(t: Tree) {
    match t
    case Leaf => true
    case Node(_, _, l, _, r) =>
      !(IsRed(t) && (IsRed(l) || IsRed(r))) && NoRedPair(l) && NoRedPair(r)
  }

  /** No node of the subtree has a red right child beside a black (or absent) left one. */
  predicate NoLoneRightRed(t: Tree) {
    match t
    case Leaf => true
    case Node(_, _, l, _, r) => !(!IsRed(l) && IsRed(r)) && NoLoneRightRed(l) && NoLoneRightRed(r)
  }

  /** Every childless node of the subtree, reached with `d` black links above it counted
      from `t`, has black depth `e`. A child is entered with one more link when it is black. */
  predicate LeafDepths(t: Tree, d: int, e: int) {
    match t
    case Leaf => true
    case Node(_, _, l, _, r) =>
      (l.Leaf? && r.Leaf? ==> d == e) &&
      LeafDepths(l, d + BlackLink(l), e) && LeafDepths(r, d + BlackLink(r), e)
  }

  /** The black depth of the first childless node the check's stack walk meets: the stack
      pops the right child first, so the walk follows right children where they exist. */
  function FirstLeafDepth(t: Tree, d: int): int
    requires t.Node?
  {
    if t.right.Node? then FirstLeafDepth(t.right, d + BlackLink(t.right))
    else if t.left.Node? then FirstLeafDepth(t.left, d + BlackLink(t.left))
    else d
  }

  /** RedBlackTree::CheckInvariants: true for an empty tree; otherwise the red rule below the
      root, no lone right red anywhere, and every childless node at the black depth of the
      first one met. */
  predicate CheckInvariants(root: Tree) {
    root.Leaf? ||
    (NoRedPair(root.left) && NoRedPair(root.right) && NoLoneRightRed(root) &&
     LeafDepths(root, 0, FirstLeafDepth(root, 0)))
  }

  /** A left-leaning subtree has no red pair and no red right child at all. */
  lemma {:induction false} LlrbPassesRedRules(t: Tree)
    requires Llrb(t)
    ensures NoRedPair(t) && NoLoneRightRed(t)
  {
    if t.Node? {
      LlrbPassesRedRules(t.left);
      LlrbPassesRedRules(t.right);
    }
  }

  /** In a balanced subtree entered at depth `d`, every childless node lies at depth
      d + BlackHeight(t) - 1. */
  lemma {:induction false} BalancedLeafDepths(t: Tree, d: int)
    requires t.Node? && Balanced(t)
    ensures LeafDepths(t, d, d + BlackHeight(t) - 1)
    ensures FirstLeafDepth(t, d) == d + BlackHeight(t) - 1
  {
    var e := d + BlackHeight(t) - 1;
    assert BlackHeight(t) == LinkHeight(t.left) == LinkHeight(t.right);
    if t.left.Node? {
      BalancedLeafDepths(t.left, d + BlackLink(t.left));
      assert LeafDepths(t.left, d + BlackLink(t.left), e);
    } else {
      assert e == d;
    }
    if t.right.Node? {
      BalancedLeafDepths(t.right, d + BlackLink(t.right));
      assert LeafDepths(t.right, d + BlackLink(t.right), e);
      assert FirstLeafDepth(t, d) == FirstLeafDepth(t.right, d + BlackLink(t.right)) == e;
    } else if t.left.Node? {
      assert FirstLeafDepth(t, d) == FirstLeafDepth(t.left, d + BlackLink(t.left)) == e;
    } else {
      assert FirstLeafDepth(t, d) == d == e;
    }
  }

  /** Every tree the public operations keep valid passes CheckInvariants. */
  lemma ValidPassesCheck(t: Tree)
    requires Valid(t)
    ensures CheckInvariants(t)
  {
    if t.Node? {
      LlrbPassesRedRules(t.left);
      LlrbPassesRedRules(t.right);
      BalancedLeafDepths(t, 0);
    }
  }

  /** CheckInvariants is weaker than the left-leaning shape the operations keep: a black node
      with two red children (a 4-node, which Fixup always splits) passes it. */
  lemma CheckAcceptsFourNode(a: int, b: int, c: int)
    requires a < b < c
    ensures var t := Node(Black, 1, Node(Red, 0, Leaf, a, Leaf), b, Node(Red, 0, Leaf, c, Leaf));
      CheckInvariants(t) && !RootShape(t)
  {
    var t := Node(Black, 1, Node(Red, 0, Leaf, a, Leaf), b, Node(Red, 0, Leaf, c, Leaf));
    assert FirstLeafDepth(t, 0) == 0;
    assert LeafDepths(t.left, 0, 0) && LeafDepths(t.right, 0, 0);
    assert NoRedPair(t.left) && NoRedPair(t.right);
    assert NoLoneRightRed(t.left) && NoLoneRightRed(t.right);
  }
}
