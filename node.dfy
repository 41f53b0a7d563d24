/** The node of RedBlackTree.h as a value, together with the abstract view of a subtree
    (its in-order item sequence and node count) and the invariants the tree keeps:
    correct LeftSize counters, strictly increasing items, black balance and the
    left-leaning shape. A missing child (a null unique_ptr) is Leaf. */
module RedBlackNode {

  datatype Colour = Red | Black

  /** Node(colour, leftSize, left, item, right) is struct Node: `colour` is its Black flag,
      `leftSize` its LeftSize counter (a size_t that the invariant SizesOk keeps equal to
      the node count of `left`). Items are the int64_t of the source's tests. */
  datatype Tree =
    | Leaf
    | Node(colour: Colour, leftSize: int, left: Tree, item: int, right: Tree)

  /** Node::s_default, the zero-initialised static item handed out by a walk off the tree. */
  const DEFAULT_ITEM: int := 0

  function Flip(c: Colour): Colour {
    if c == Red then Black else Red
  }

  /** A present node whose colour is red. An absent child counts as black, so this is
      IsLeftRed / IsRightRed when applied to a child. */
  predicate IsRed(t: Tree) {
    t.Node? && t.colour == Red
  }

  // ---------------------------------------------------------------------------
  // Abstract view
  // ---------------------------------------------------------------------------

  /** The items of the subtree in in-order (left, node, right) order. */
  ghost function Inorder(t: Tree): (s: seq<int>)
    ensures |s| == Size(t)
  {
    match t
    case Leaf => []
    case Node(_, _, l, x, r) => Inorder(l) + [x] + Inorder(r)
  }

  /** Number of nodes of the subtree. */
  ghost function Size(t: Tree): nat {
    match t
    case Leaf => 0
    case Node(_, _, l, _, r) => Size(l) + 1 + Size(r)
  }

  /** The set of items stored in the subtree. */
  ghost function Elements(t: Tree): set<int> {
    set e | e in Inorder(t)
  }

  ghost predicate Sorted(s: seq<int>) {
    forall i, j :: 0 <= i < j < |s| ==> s[i] < s[j]
  }

  /** Items are distinct and the in-order sequence increases strictly (a search tree). */
  ghost predicate Ordered(t: Tree) {
    Sorted(Inorder(t))
  }

  /** Every node's LeftSize equals the node count of its left subtree. */
  ghost predicate SizesOk(t: Tree) {
    match t
    case Leaf => true
    case Node(_, s, l, _, r) => s == Size(l) && SizesOk(l) && SizesOk(r)
  }

  // ---------------------------------------------------------------------------
  // Balance and shape
  // ---------------------------------------------------------------------------

  /** 1 when the link to `t` is black (an absent child is black), 0 when it is red. */
  function BlackLink(t: Tree): nat {
    if IsRed(t) then 0 else 1
  }

  /** Number of black links on the left spine below `t`, down to and including the
      link to the absent child; Balanced makes it the same on every path. The colour
      of `t` itself does not enter. */
  ghost function BlackHeight(t: Tree): nat {
    match t
    case Leaf => 0
    case Node(_, _, l, _, _) => BlackHeight(l) + BlackLink(l)
  }

  /** Black height seen from the parent: it includes the link to `t`. */
  ghost function LinkHeight(t: Tree): nat {
    BlackHeight(t) + BlackLink(t)
  }

  /** Every path from a node down to an absent child crosses the same number of black links. */
  ghost predicate Balanced(t: Tree) {
    match t
    case Leaf => true
    case Node(_, _, l, _, r) =>
      Balanced(l) && Balanced(r) && LinkHeight(l) == LinkHeight(r)
  }

  /** Left-leaning shape of a subtree that hangs below a parent: no node has a red right
      child, and no red node has a red left child. */
  ghost predicate Llrb(t: Tree) {
    match t
    case Leaf => true
    case Node(c, _, l, _, r) =>
      !IsRed(r) && (c == Red ==> !IsRed(l)) && Llrb(l) && Llrb(r)
  }

  /** The shape the source keeps at the root: as Llrb, except that the root's own colour is
      unconstrained, so a red root may have a red left child. */
  ghost predicate RootShape(t: Tree) {
    t.Leaf? || (!IsRed(t.right) && Llrb(t.left) && Llrb(t.right))
  }

  /** The red-red configuration only the root may show. */
  predicate RedRed(t: Tree) {
    IsRed(t) && IsRed(t.left)
  }

  /** The balanced, ordered, correctly counted left-leaning tree that every public
      operation of RedBlackTree starts from and returns to. */
  ghost predicate Valid(t: Tree) {
    SizesOk(t) && Ordered(t) && Balanced(t) && RootShape(t)
  }

  // ---------------------------------------------------------------------------
  // Facts about the view
  // ---------------------------------------------------------------------------

  lemma {:induction false} LlrbIsRootShape(t: Tree)
    ensures Llrb(t) <==> RootShape(t) && !RedRed(t)
  {
  }

  /** A present node always has a black link somewhere below it. */
  lemma {:induction false} BlackHeightPositive(t: Tree)
    requires t.Node?
    ensures BlackHeight(t) >= 1
  {
    if IsRed(t.left) {
      BlackHeightPositive(t.left);
    }
  }

  /** In a balanced tree a node with an absent child on one side has, on the other side,
      nothing but possibly one red node without children. */
  lemma AbsentSibling(t: Tree)
    requires t.Node? && Balanced(t)
    ensures t.right.Leaf? && !IsRed(t.left) ==> t.left.Leaf?
    ensures t.left.Leaf? && !IsRed(t.right) ==> t.right.Leaf?
  {
    if t.left.Node? { BlackHeightPositive(t.left); }
    if t.right.Node? { BlackHeightPositive(t.right); }
  }

  /** The in-order sequence of a node splits at its item: sortedness of the whole is
      sortedness of both sides, with the left side below and the right side above it. */
  lemma SortedJoin(a: seq<int>, y: int, b: seq<int>)
    ensures Sorted(a + [y] + b) <==>
      Sorted(a) && Sorted(b) && (forall e :: e in a ==> e < y) && (forall e :: e in b ==> y < e)
  {
    if Sorted(a + [y] + b) {
      SortedSplit(a, y, b);
    }
    if Sorted(a) && Sorted(b) && (forall e :: e in a ==> e < y) && (forall e :: e in b ==> y < e) {
      SortedGlue(a, y, b);
    }
  }

  lemma SortedSplit(a: seq<int>, y: int, b: seq<int>)
    requires Sorted(a + [y] + b)
    ensures Sorted(a) && Sorted(b) && (forall e :: e in a ==> e < y) && (forall e :: e in b ==> y < e)
  {
    var s := a + [y] + b;
    assert forall i :: 0 <= i < |a| ==> s[i] == a[i];
    assert forall i :: 0 <= i < |b| ==> s[|a| + 1 + i] == b[i];
    assert s[|a|] == y;
    forall e | e in a ensures e < y {
      var k :| 0 <= k < |a| && a[k] == e;
      assert s[k] == e;
    }
    forall e | e in b ensures y < e {
      var k :| 0 <= k < |b| && b[k] == e;
      assert s[|a| + 1 + k] == e;
    }
  }

  lemma SortedGlue(a: seq<int>, y: int, b: seq<int>)
    requires Sorted(a) && Sorted(b) && (forall e :: e in a ==> e < y) && (forall e :: e in b ==> y < e)
    ensures Sorted(a + [y] + b)
  {
    var s := a + [y] + b;
    forall i, j | 0 <= i < j < |s| ensures s[i] < s[j] {
      if j < |a| {
        assert s[i] == a[i] && s[j] == a[j];
      } else if j == |a| {
        assert s[i] == a[i] && s[j] == y && a[i] in a;
      } else if i < |a| {
        assert s[i] == a[i] && s[j] == b[j - |a| - 1];
        assert a[i] in a && b[j - |a| - 1] in b;
      } else if i == |a| {
        assert s[i] == y && s[j] == b[j - |a| - 1] && b[j - |a| - 1] in b;
      } else {
        assert s[i] == b[i - |a| - 1] && s[j] == b[j - |a| - 1];
      }
    }
  }

  /** The items of a node are those of its two subtrees and its own. */
  lemma ElementsNode(t: Tree)
    requires t.Node?
    ensures Elements(t) == Elements(t.left) + {t.item} + Elements(t.right)
    ensures t.item in Elements(t)
  {
    assert Inorder(t) == Inorder(t.left) + [t.item] + Inorder(t.right);
  }

  /** Ordered unfolded one level: the node's item separates its two subtrees. */
  lemma OrderedNode(t: Tree)
    requires t.Node?
    ensures Ordered(t) <==>
      Ordered(t.left) && Ordered(t.right) &&
      (forall e :: e in Elements(t.left) ==> e < t.item) &&
      (forall e :: e in Elements(t.right) ==> t.item < e)
    ensures Ordered(t) && t.left.Node? ==> t.left.item < t.item
    ensures Ordered(t) && t.right.Node? ==> t.item < t.right.item
  {
    if t.left.Node? { ElementsNode(t.left); }
    if t.right.Node? { ElementsNode(t.right); }
    assert Inorder(t) == Inorder(t.left) + [t.item] + Inorder(t.right);
    assert forall e :: e in Elements(t.left) <==> e in Inorder(t.left);
    assert forall e :: e in Elements(t.right) <==> e in Inorder(t.right);
    SortedJoin(Inorder(t.left), t.item, Inorder(t.right));
  }

  /** In a search tree the node's item lies above its left subtree and below its right one. */
  lemma OrderedSides(t: Tree)
    requires t.Node? && Ordered(t)
    ensures forall e :: e in Elements(t.left) ==> e < t.item
    ensures forall e :: e in Elements(t.right) ==> t.item < e
  {
    OrderedNode(t);
  }

  /** The subtrees of a search tree are search trees. */
  lemma OrderedChildren(t: Tree)
    requires t.Node? && Ordered(t)
    ensures Ordered(t.left) && Ordered(t.right)
  {
    OrderedNode(t);
  }

  /** Subtrees with the same in-order items have the same items, size and order. */
  lemma SameInorder(a: Tree, b: Tree)
    requires Inorder(a) == Inorder(b)
    ensures Elements(a) == Elements(b) && Size(a) == Size(b) && Ordered(a) == Ordered(b)
  {
  }

  /** In a search tree an item below (above) a node's item can only be in its left (right)
      subtree. */
  lemma Descend(t: Tree, x: int)
    requires t.Node? && Ordered(t)
    ensures x < t.item ==> (x in Elements(t) <==> x in Elements(t.left))
    ensures t.item < x ==> (x in Elements(t) <==> x in Elements(t.right))
  {
    OrderedNode(t);
    ElementsNode(t);
  }

  /** Replacing the left subtree of a search tree by one whose items are still below the
      node's item keeps it a search tree; the counters are right when `k` counts the new
      subtree. */
  lemma ReplaceLeft(t: Tree, l: Tree, k: int)
    requires t.Node? && Ordered(t) && Ordered(l) && (forall e :: e in Elements(l) ==> e < t.item)
    ensures var n := t.(left := l, leftSize := k);
      Ordered(n) && Elements(n) == Elements(l) + {t.item} + Elements(t.right) &&
      Size(n) == Size(l) + 1 + Size(t.right) &&
      (SizesOk(n) <==> k == Size(l) && SizesOk(l) && SizesOk(t.right))
  {
    var n := t.(left := l, leftSize := k);
    OrderedNode(t);
    OrderedNode(n);
    ElementsNode(n);
  }

  /** The mirror image of ReplaceLeft, for the right subtree. */
  lemma ReplaceRight(t: Tree, r: Tree)
    requires t.Node? && Ordered(t) && Ordered(r) && (forall e :: e in Elements(r) ==> t.item < e)
    ensures var n := t.(right := r);
      Ordered(n) && Elements(n) == Elements(t.left) + {t.item} + Elements(r) &&
      Size(n) == Size(t.left) + 1 + Size(r) &&
      (SizesOk(n) <==> t.leftSize == Size(t.left) && SizesOk(t.left) && SizesOk(r))
  {
    var n := t.(right := r);
    OrderedNode(t);
    OrderedNode(n);
    ElementsNode(n);
  }
}
